/**
 * `extractCodeBlocks`: fenced code regions delimited by three backticks.
 *
 * The global regular expression /```[\s\S]*?```/g is modelled by `NextMatch`:
 * searching from `lastIndex`, a region opens at the first fence and closes at
 * the first fence that starts after the opening one ends. `Exec` is the
 * hand-written scanner for one `exec` call; `ExtractCodeBlocks` is the loop
 * that drives it.
 */
module Fences {
  import opened Text
  import opened Wrappers

  const Fence: string := "```"

  /** Three backticks start at position `i` of `s`. */
  predicate FenceAt(s: string, i: nat) {
    i + 3 <= |s| && s[i] == '`' && s[i + 1] == '`' && s[i + 2] == '`'
  }

  /** The first fence of `s` at or after `from`, if any. */
  function FindFence(s: string, from: nat): (r: Option<nat>)
    ensures r.Some? ==> from <= r.value && FenceAt(s, r.value)
    ensures forall k :: from <= k && (r.None? || k < r.value) ==> !FenceAt(s, k)
    decreases |s| - from
  {
    if from + 3 > |s| then None
    else if FenceAt(s, from) then Some(from)
    else FindFence(s, from + 1)
  }

  /** A matched region `s[start..end]`, both fences included. */
  datatype Region = Region(start: nat, end: nat)

  /**
   * The pattern can match `s[p..q + 3]` in a search from `from`: one fence at
   * `p`, another at `q`, and the second starts after the first one ends.
   */
  predicate MatchesAt(s: string, from: nat, p: nat, q: nat) {
    from <= p && p + 3 <= q && FenceAt(s, p) && FenceAt(s, q)
  }

  /** Some region can be matched in a search from `from`. */
  ghost predicate HasMatch(s: string, from: nat) {
    exists p: nat, q: nat :: MatchesAt(s, from, p, q)
  }

  /**
   * One `codeBlockRegex.exec(s)` with `lastIndex == from`: the leftmost
   * region, closed at the first fence after its opening (the lazy `*?`).
   */
  function NextMatch(s: string, from: nat): (m: Option<Region>)
    ensures m.Some? ==> from <= m.value.start && m.value.start + 6 <= m.value.end <= |s|
    ensures m.Some? ==> FenceAt(s, m.value.start) && FenceAt(s, m.value.end - 3)
  {
    match FindFence(s, from)
    case None => None
    case Some(p) =>
      match FindFence(s, p + 3)
      case None => None
      case Some(q) => Some(Region(p, q + 3))
  }

  /**
   * The search finds a region exactly when one can be matched, and the one it
   * finds is the leftmost and is closed by the first fence after its opening.
   */
  lemma NextMatchSpec(s: string, from: nat)
    ensures NextMatch(s, from).None? <==> !HasMatch(s, from)
    ensures NextMatch(s, from).Some? ==>
      Closed(s, NextMatch(s, from).value) && LeftmostFrom(s, from, NextMatch(s, from).value)
  {
    match FindFence(s, from)
    case None =>
    case Some(p) =>
      match FindFence(s, p + 3)
      case None =>
      case Some(q) =>
        assert MatchesAt(s, from, p, q);
  }

  /**
   * `r` is a region of `s` closed by the first fence after its opening one:
   * no fence starts strictly inside it.
   */
  predicate Closed(s: string, r: Region) {
    r.start + 6 <= r.end <= |s| && FenceAt(s, r.start) && FenceAt(s, r.end - 3) &&
    forall i :: r.start + 3 <= i < r.end - 3 ==> !FenceAt(s, i)
  }

  /** `r` opens at the first fence at or after `from`. */
  predicate LeftmostFrom(s: string, from: nat, r: Region) {
    from <= r.start && forall i :: from <= i < r.start ==> !FenceAt(s, i)
  }

  /**
   * Each region of `rs` is closed; the first one is the leftmost at or after
   * `from` and every later one is the leftmost after its predecessor ends.
   */
  predicate Chain(s: string, from: nat, rs: seq<Region>) {
    (forall k :: 0 <= k < |rs| ==> Closed(s, rs[k])) &&
    (rs != [] ==> LeftmostFrom(s, from, rs[0])) &&
    (forall k :: 0 < k < |rs| ==> LeftmostFrom(s, rs[k - 1].end, rs[k]))
  }

  lemma ChainCons(s: string, from: nat, r: Region, rest: seq<Region>)
    requires Closed(s, r) && LeftmostFrom(s, from, r) && Chain(s, r.end, rest)
    ensures Chain(s, from, [r] + rest)
  {
    var rs := [r] + rest;
    forall k | 1 < k < |rs|
      ensures LeftmostFrom(s, rs[k - 1].end, rs[k])
    {
      assert rs[k] == rest[k - 1] && rs[k - 1] == rest[k - 2];
    }
  }

  /** `s[i..j]`, or "" when that slice does not lie in `s`. */
  function Slice(s: string, i: nat, j: nat): string {
    if i <= j <= |s| then s[i..j] else ""
  }

  /** The text of region `r` in `s`. */
  function MatchedText(s: string, r: Region): string {
    Slice(s, r.start, r.end)
  }

  /**
   * Every region the global search finds from `from`, in order: each one
   * starts where the search resumes after the previous one.
   */
  function Regions(s: string, from: nat): seq<Region>
    requires from <= |s|
    decreases |s| - from
  {
    match NextMatch(s, from)
    case None => []
    case Some(r) => [r] + Regions(s, r.end)
  }

  /**
   * The global search finds non-overlapping regions, each closed at the first
   * fence after its opening and each the leftmost after the previous one; it
   * finds none exactly when no region can be matched, and stops only when no
   * region can be matched after the last one.
   */
  lemma {:induction false} RegionsAreLeftmostChain(s: string, from: nat)
    requires from <= |s|
    ensures Chain(s, from, Regions(s, from))
    ensures Regions(s, from) == [] <==> !HasMatch(s, from)
    ensures Regions(s, from) != [] ==> !HasMatch(s, Regions(s, from)[|Regions(s, from)| - 1].end)
    decreases |s| - from
  {
    NextMatchSpec(s, from);
    match NextMatch(s, from)
    case None =>
    case Some(r) =>
      var rest := Regions(s, r.end);
      RegionsAreLeftmostChain(s, r.end);
      ChainCons(s, from, r, rest);
  }

  // ---------------------------------------------------------------------
  // Stripping the fences off one matched region

  /** Length of the longest prefix of `s` made of word characters (the `\w*` of the opening pattern). */
  function WordRunLength(s: string): (n: nat)
    ensures n <= |s|
    ensures forall i :: 0 <= i < n ==> IsWordChar(s[i])
    ensures n < |s| ==> !IsWordChar(s[n])
  {
    if s != [] && IsWordChar(s[0]) then 1 + WordRunLength(s[1..]) else 0
  }

  /** `text.replace(/^```\w*\n?/, '')`. */
  function StripOpening(text: string): string {
    if FenceAt(text, 0) then
      var rest := text[3..];
      var w := WordRunLength(rest);
      if w < |rest| && rest[w] == '\n' then rest[w + 1..] else rest[w..]
    else text
  }

  /** `text.replace(/\n?```$/, '')`. */
  function StripClosing(text: string): string {
    if |text| >= 4 && text[|text| - 4] == '\n' && FenceAt(text, |text| - 3) then text[..|text| - 4]
    else if |text| >= 3 && FenceAt(text, |text| - 3) then text[..|text| - 3]
    else text
  }

  /** The code content of one matched region: its text without the fences, the language tag and the newlines next to them. */
  function BlockContent(text: string): string {
    StripClosing(StripOpening(text))
  }

  /** The code content of each region of `rs`, in order. */
  function Codes(s: string, rs: seq<Region>): (codes: seq<string>)
    ensures |codes| == |rs|
    ensures forall k :: 0 <= k < |rs| ==> codes[k] == BlockContent(MatchedText(s, rs[k]))
  {
    if rs == [] then [] else [BlockContent(MatchedText(s, rs[0]))] + Codes(s, rs[1..])
  }

  lemma CodesSnoc(s: string, rs: seq<Region>, r: Region)
    ensures Codes(s, rs + [r]) == Codes(s, rs) + [BlockContent(MatchedText(s, r))]
  {
    var a, b := Codes(s, rs + [r]), Codes(s, rs) + [BlockContent(MatchedText(s, r))];
    assert |a| == |b|;
    forall k | 0 <= k < |a| ensures a[k] == b[k] {
      assert (rs + [r])[k] == if k < |rs| then rs[k] else r;
    }
  }

  // ---------------------------------------------------------------------
  // The prose text

  /** `s.replace(codeBlockRegex, ' ')` from position `from` on: every matched region becomes one space. */
  function Replaced(s: string, from: nat): string
    requires from <= |s|
    decreases |s| - from
  {
    match NextMatch(s, from)
    case None => s[from..]
    case Some(r) => s[from..r.start] + " " + Replaced(s, r.end)
  }

  /** The texts around the regions `rs`, from `from` on: before the first one, between neighbours, after the last. */
  function Gaps(s: string, from: nat, rs: seq<Region>): (gaps: seq<string>)
    ensures |gaps| == |rs| + 1
    decreases |rs|
  {
    if rs == [] then [Slice(s, from, |s|)]
    else [Slice(s, from, rs[0].start)] + Gaps(s, rs[0].end, rs[1..])
  }

  /**
   * The replacement and the `exec` loop see the same regions: the prose is the
   * text around the regions the loop finds, in order and unchanged, with one
   * space in place of each region.
   */
  lemma {:induction false} ProseIsGapsJoined(s: string, from: nat)
    requires from <= |s|
    ensures Replaced(s, from) == Join(Gaps(s, from, Regions(s, from)), " ")
    decreases |s| - from
  {
    match NextMatch(s, from)
    case None =>
    case Some(r) =>
      var rest := Regions(s, r.end);
      ProseIsGapsJoined(s, r.end);
      assert Regions(s, from) == [r] + rest;
      var g := Gaps(s, r.end, rest);
      var gaps := Gaps(s, from, [r] + rest);
      assert gaps == [s[from..r.start]] + g;
      assert gaps[0] == s[from..r.start] && gaps[1..] == g;
  }

  /** What `extractCodeBlocks` returns. */
  datatype Extraction = Extraction(regularText: string, codeText: string, codeBlockCount: nat)

  /** The result of `extractCodeBlocks(s)`. */
  function Extract(s: string): Extraction {
    var rs := Regions(s, 0);
    Extraction(Replaced(s, 0), Join(Codes(s, rs), " "), |rs|)
  }

  // ---------------------------------------------------------------------
  // Properties of the extraction

  lemma {:induction false} WordRunStopsAt(a: string, b: string)
    requires b != [] && !IsWordChar(b[0])
    ensures WordRunLength(a + b) == WordRunLength(a)
  {
    if a != [] {
      assert (a + b)[1..] == a[1..] + b;
      WordRunStopsAt(a[1..], b);
    }
  }

  /** How many characters after the opening fence the opening pattern removes: the word run and a newline after it. */
  function OpeningLength(inner: string): (n: nat)
    ensures n <= |inner|
  {
    var w := WordRunLength(inner);
    if w < |inner| && inner[w] == '\n' then w + 1 else w
  }

  /** The opening pattern removes the fence, the longest word run and one newline after it. */
  lemma StripOpeningFenced(inner: string)
    ensures StripOpening(Fence + inner + Fence) == inner[OpeningLength(inner)..] + Fence
  {
    var text := Fence + inner + Fence;
    assert FenceAt(text, 0);
    var rest := text[3..];
    assert rest == inner + Fence;
    WordRunStopsAt(inner, Fence);
    var w := WordRunLength(inner);
    if w < |inner| && inner[w] == '\n' {
      assert rest[w] == '\n';
      DropOfAppend(inner, Fence, w + 1);
    } else {
      assert rest[w] != '\n';
      DropOfAppend(inner, Fence, w);
    }
  }

  lemma DropOfAppend(a: string, b: string, k: nat)
    requires k <= |a|
    ensures (a + b)[k..] == a[k..] + b
  {
  }

  /** How many characters before the closing fence the closing pattern removes: one newline, if there is one. */
  function ClosingLength(body: string): (n: nat)
    ensures n <= |body|
  {
    if body != [] && body[|body| - 1] == '\n' then 1 else 0
  }

  /** The closing pattern removes the fence and one newline before it. */
  lemma StripClosingFenced(body: string)
    ensures StripClosing(body + Fence) == body[..|body| - ClosingLength(body)]
  {
    var t := body + Fence;
    assert FenceAt(t, |t| - 3);
    assert t[..|t| - 3] == body;
    if ClosingLength(body) == 1 {
      assert t[|t| - 4] == '\n';
      assert t[..|t| - 4] == body[..|body| - 1];
    }
  }

  /**
   * The code content of a region is the text between its fences without the
   * language tag (the longest run of word characters right after the opening
   * fence, dropped even when code follows on the same line), without one
   * newline right after the tag if there is one, and without one newline right
   * before the closing fence if there is one.
   */
  lemma BlockShape(inner: string) returns (tag: string, open: string, close: string)
    ensures inner == tag + open + BlockContent(Fence + inner + Fence) + close
    ensures forall i :: 0 <= i < |tag| ==> IsWordChar(tag[i])
    ensures |tag| < |inner| ==> !IsWordChar(inner[|tag|])
    ensures open == if |tag| < |inner| && inner[|tag|] == '\n' then "\n" else ""
    ensures close == if |tag| + |open| < |inner| && inner[|inner| - 1] == '\n' then "\n" else ""
  {
    var w := WordRunLength(inner);
    var o := OpeningLength(inner);
    var j := |inner| - ClosingLength(inner[o..]);
    BlockContentIsSlice(inner);
    tag, open, close := inner[..w], inner[w..o], inner[j..];
    SliceInFour(inner, w, o, j);
    OptionalNewline(inner, w, o);
    OptionalNewline(inner, j, |inner|);
  }

  /** A slice of length at most one that holds a newline when it is not empty. */
  lemma OptionalNewline(s: string, i: nat, j: nat)
    requires i <= j <= i + 1 && j <= |s|
    requires i < j ==> s[i] == '\n'
    ensures s[i..j] == if i < j then "\n" else ""
  {
    if i < j {
      assert s[i..j] == [s[i]];
    }
  }

  /** The code content is the slice of the text between the fences that the two patterns leave. */
  lemma BlockContentIsSlice(inner: string)
    ensures OpeningLength(inner) <= |inner| - ClosingLength(inner[OpeningLength(inner)..])
    ensures BlockContent(Fence + inner + Fence) ==
      inner[OpeningLength(inner)..|inner| - ClosingLength(inner[OpeningLength(inner)..])]
  {
    var o := OpeningLength(inner);
    var body := inner[o..];
    var j := |inner| - ClosingLength(body);
    assert BlockContent(Fence + inner + Fence) == body[..|body| - ClosingLength(body)] by {
      StripOpeningFenced(inner);
      StripClosingFenced(body);
    }
    SliceOfSuffix(inner, o, j);
  }

  lemma SliceOfSuffix(t: string, i: nat, j: nat)
    requires i <= j <= |t|
    ensures t[i..][..j - i] == t[i..j]
  {
  }

  lemma SliceInFour(s: string, i: nat, j: nat, k: nat)
    requires i <= j <= k <= |s|
    ensures s == s[..i] + s[i..j] + s[j..k] + s[k..]
  {
    assert s[..j] == s[..i] + s[i..j];
    assert s[..k] == s[..j] + s[j..k];
    assert s == s[..k] + s[k..];
  }

  /** Without any complete fenced region nothing is extracted and the prose is the text itself. */
  lemma NoRegionKeepsText(s: string)
    requires !HasMatch(s, 0)
    ensures Extract(s) == Extraction(s, "", 0)
  {
    NextMatchSpec(s, 0);
    assert s[0..] == s;
  }

  /** No region of `rs` contains position `p`. */
  predicate Avoids(rs: seq<Region>, p: nat) {
    forall k :: 0 <= k < |rs| ==> !(rs[k].start <= p < rs[k].end)
  }

  /** Every region of `rs` ends at or before position `p`. */
  predicate EndsBy(rs: seq<Region>, p: nat) {
    forall k :: 0 <= k < |rs| ==> rs[k].end <= p
  }

  /**
   * An opening fence with no fence after it, outside every matched region,
   * stays unmatched: every region ends before it, and the prose ends with the
   * text from that fence on, verbatim.
   */
  lemma UnclosedFenceStaysProse(s: string, from: nat, p: nat) returns (before: string)
    requires from <= p && FenceAt(s, p)
    requires forall q :: p + 3 <= q ==> !FenceAt(s, q)
    requires Avoids(Regions(s, from), p)
    ensures EndsBy(Regions(s, from), p)
    ensures Replaced(s, from) == before + s[p..]
  {
    RegionsEndBeforeUnclosed(s, from, p);
    before := ReplacedKeepsTail(s, from, p);
  }

  lemma {:induction false} RegionsEndBeforeUnclosed(s: string, from: nat, p: nat)
    requires from <= p && FenceAt(s, p)
    requires forall q :: p + 3 <= q ==> !FenceAt(s, q)
    requires Avoids(Regions(s, from), p)
    ensures EndsBy(Regions(s, from), p)
    decreases |s| - from
  {
    match NextMatch(s, from)
    case None =>
    case Some(r) =>
      var rs := Regions(s, from);
      var rest := Regions(s, r.end);
      assert rs == [r] + rest;
      assert rs[0] == r;
      RegionBeforeUnclosed(s, from, p, r);
      assert Avoids(rest, p) by {
        forall k | 0 <= k < |rest| ensures !(rest[k].start <= p < rest[k].end) {
          assert rest[k] == rs[k + 1];
        }
      }
      RegionsEndBeforeUnclosed(s, r.end, p);
      forall k | 0 <= k < |rs| ensures rs[k].end <= p {
        if k > 0 {
          assert rs[k] == rest[k - 1];
        }
      }
  }

  /** The text after the last region is kept verbatim at the end of the prose. */
  lemma {:induction false} ReplacedKeepsTail(s: string, from: nat, p: nat) returns (before: string)
    requires from <= p <= |s|
    requires EndsBy(Regions(s, from), p)
    ensures Replaced(s, from) == before + s[p..]
    decreases |s| - from
  {
    match NextMatch(s, from)
    case None =>
      before := s[from..p];
      assert s[from..] == before + s[p..];
    case Some(r) =>
      EndsByRest(s, from, p, r);
      var later := ReplacedKeepsTail(s, r.end, p);
      var prefix := s[from..r.start] + " ";
      before := prefix + later;
      AppendAssoc(prefix, later, s[p..]);
  }

  lemma AppendAssoc(a: string, b: string, c: string)
    ensures a + (b + c) == (a + b) + c
  {
  }

  lemma EndsByRest(s: string, from: nat, p: nat, r: Region)
    requires from <= |s| && NextMatch(s, from) == Some(r)
    requires EndsBy(Regions(s, from), p)
    ensures r.end <= p && EndsBy(Regions(s, r.end), p)
  {
    var rs := Regions(s, from);
    var rest := Regions(s, r.end);
    assert rs == [r] + rest;
    assert rs[0] == r;
    forall k | 0 <= k < |rest| ensures rest[k].end <= p {
      assert rest[k] == rs[k + 1];
    }
  }

  /** A region the search finds that does not contain the unclosed fence at `p` ends before `p`. */
  lemma RegionBeforeUnclosed(s: string, from: nat, p: nat, r: Region)
    requires FenceAt(s, p) && forall q :: p + 3 <= q ==> !FenceAt(s, q)
    requires NextMatch(s, from) == Some(r) && !(r.start <= p < r.end)
    ensures r.end <= p
  {
    NextMatchSpec(s, from);
  }

  /** Three backticks inside `a + " " + b` lie wholly inside `a` or wholly inside `b`. */
  lemma FenceAroundSpace(a: string, b: string, i: nat)
    requires FenceAt(a + " " + b, i)
    ensures (i + 3 <= |a| && FenceAt(a, i)) || (i > |a| && FenceAt(b, i - |a| - 1))
  {
    var t := a + " " + b;
    assert t[|a|] == ' ';
    if i + 3 <= |a| {
      assert t[i] == a[i] && t[i + 1] == a[i + 1] && t[i + 2] == a[i + 2];
    } else if i > |a| {
      var j := i - |a| - 1;
      assert t[i] == b[j] && t[i + 1] == b[j + 1] && t[i + 2] == b[j + 2];
    }
  }

  /** The prose contains no complete fenced region: replacing regions by spaces never creates a new one. */
  lemma {:induction false} ReplacedHasNoMatch(s: string, from: nat)
    requires from <= |s|
    ensures !HasMatch(Replaced(s, from), 0)
    decreases |s| - from
  {
    var t := Replaced(s, from);
    NextMatchSpec(s, from);
    match NextMatch(s, from)
    case None =>
      assert t == s[from..];
      if HasMatch(t, 0) {
        var p: nat, q: nat :| MatchesAt(t, 0, p, q);
        assert FenceAt(s, from + p) && FenceAt(s, from + q);
        assert false;
      }
    case Some(r) =>
      var g := s[from..r.start];
      var t' := Replaced(s, r.end);
      assert t == g + " " + t';
      ReplacedHasNoMatch(s, r.end);
      if HasMatch(t, 0) {
        var p: nat, q: nat :| MatchesAt(t, 0, p, q);
        FenceAroundSpace(g, t', p);
        FenceAroundSpace(g, t', q);
        if p + 3 <= |g| {
          assert FenceAt(s, from + p);
          assert false;
        } else {
          assert MatchesAt(t', 0, p - |g| - 1, q - |g| - 1);
          assert false;
        }
      }
  }

  /** Extraction is idempotent on its own prose: extracting again finds no block and changes nothing. */
  lemma ExtractIdempotent(s: string)
    ensures Extract(Extract(s).regularText) == Extraction(Extract(s).regularText, "", 0)
  {
    ReplacedHasNoMatch(s, 0);
    NoRegionKeepsText(Replaced(s, 0));
  }

  lemma {:induction false} WordRunAll(t: string)
    requires forall i :: 0 <= i < |t| ==> IsWordChar(t[i])
    ensures WordRunLength(t) == |t|
  {
    if t != [] {
      WordRunAll(t[1..]);
    }
  }

  /**
   * A block written as a fence, a language tag, a newline, the code, a newline
   * and a fence has exactly the code as its content.
   */
  lemma TaggedBlock(tag: string, code: string)
    requires forall i :: 0 <= i < |tag| ==> IsWordChar(tag[i])
    ensures BlockContent(Fence + (tag + "\n" + code + "\n") + Fence) == code
  {
    var inner := tag + "\n" + code + "\n";
    var after := inner[|tag|..];
    assert inner == tag + after && after[0] == '\n';
    WordRunStopsAt(tag, after);
    WordRunAll(tag);
    assert OpeningLength(inner) == |tag| + 1;
    BlockContentIsSlice(inner);
    assert inner[|tag| + 1..|inner| - 1] == code;
  }

  /** `s` holds no backtick. */
  predicate NoTicks(s: string) {
    forall i :: 0 <= i < |s| ==> s[i] != '`'
  }

  /**
   * One fenced block between two backtick-free texts is the only region: its
   * content is the code, and the prose is the two texts with one space between them.
   */
  lemma SingleBlock(a: string, inner: string, c: string)
    requires NoTicks(a) && NoTicks(inner) && NoTicks(c)
    ensures Extract(a + Fence + inner + Fence + c) ==
      Extraction(a + " " + c, BlockContent(Fence + inner + Fence), 1)
  {
    var s := a + Fence + inner + Fence + c;
    var p, q := |a|, |a| + 3 + |inner|;
    var r := Region(p, q + 3);
    SingleBlockFound(a, inner, c);
    SingleBlockLast(a, inner, c);
    assert Regions(s, 0) == [r];
    assert s[0..p] == a && s[q + 3..] == c;
    assert Replaced(s, 0) == a + " " + c;
    assert MatchedText(s, r) == Fence + inner + Fence;
  }

  lemma SingleBlockFound(a: string, inner: string, c: string)
    requires NoTicks(a) && NoTicks(inner)
    ensures NextMatch(a + Fence + inner + Fence + c, 0) == Some(Region(|a|, |a| + |inner| + 6))
  {
    var s := a + Fence + inner + Fence + c;
    var p, q := |a|, |a| + 3 + |inner|;
    assert FenceAt(s, p) && FenceAt(s, q);
    forall k: nat | k < p ensures !FenceAt(s, k) {
      assert s[k] == a[k];
    }
    forall k | p + 3 <= k < q ensures !FenceAt(s, k) {
      assert s[k] == inner[k - p - 3];
    }
  }

  lemma SingleBlockLast(a: string, inner: string, c: string)
    requires NoTicks(c)
    ensures NextMatch(a + Fence + inner + Fence + c, |a| + |inner| + 6) == None
  {
    var s := a + Fence + inner + Fence + c;
    var e := |a| + |inner| + 6;
    forall k | e <= k ensures !FenceAt(s, k) {
      if k < |s| {
        assert s[k] == c[k - e];
      }
    }
  }

  /** A lone fence in backtick-free text matches nothing: no block, and the prose is the text itself. */
  lemma LoneFence(a: string, c: string)
    requires NoTicks(a) && NoTicks(c)
    ensures Extract(a + Fence + c) == Extraction(a + Fence + c, "", 0)
  {
    var s := a + Fence + c;
    var p := |a|;
    assert FenceAt(s, p);
    forall k: nat | k < p ensures !FenceAt(s, k) {
      assert s[k] == a[k];
    }
    forall k | p + 3 <= k ensures !FenceAt(s, k) {
      if k < |s| {
        assert s[k] == c[k - p - 3];
      }
    }
    assert NextMatch(s, 0) == None;
    assert s[0..] == s;
  }

  // ---------------------------------------------------------------------
  // The imperative scanner

  /** One `codeBlockRegex.exec(content)` call with the regex's `lastIndex` equal to `lastIndex`. */
  method Exec(content: string, lastIndex: nat) returns (m: Option<Region>)
    requires lastIndex <= |content|
    ensures m == NextMatch(content, lastIndex)
  {
    var p := lastIndex;
    while p + 3 <= |content| && !FenceAt(content, p)
      invariant lastIndex <= p
      invariant forall k :: lastIndex <= k < p ==> !FenceAt(content, k)
      decreases |content| - p
    {
      p := p + 1;
    }
    if p + 3 > |content| {
      return None;
    }
    var q := p + 3;
    while q + 3 <= |content| && !FenceAt(content, q)
      invariant p + 3 <= q
      invariant forall k :: p + 3 <= k < q ==> !FenceAt(content, k)
      decreases |content| - q
    {
      q := q + 1;
    }
    if q + 3 > |content| {
      return None;
    }
    m := Some(Region(p, q + 3));
  }

  /** One turn of the `exec` loop: the region found is the next one of the global search, and its content is the next block. */
  lemma LoopStep(s: string, done: seq<Region>, from: nat, r: Region)
    requires from <= |s| && NextMatch(s, from) == Some(r)
    requires done + Regions(s, from) == Regions(s, 0)
    ensures (done + [r]) + Regions(s, r.end) == Regions(s, 0)
    ensures Codes(s, done + [r]) == Codes(s, done) + [BlockContent(s[r.start..r.end])]
  {
    var rest := Regions(s, r.end);
    assert Regions(s, from) == [r] + rest;
    assert done + [r] + rest == done + ([r] + rest);
    assert MatchedText(s, r) == s[r.start..r.end];
    CodesSnoc(s, done, r);
  }

  /** `extractCodeBlocks(content)`: the `exec` loop collecting block contents, then the replacement for the prose. */
  method ExtractCodeBlocks(content: string) returns (result: Extraction)
    ensures result == Extract(content)
  {
    var codeBlocks: seq<string> := [];
    ghost var done: seq<Region> := [];
    var lastIndex := 0;
    var m := Exec(content, lastIndex);
    while m.Some?
      invariant lastIndex <= |content|
      invariant m == NextMatch(content, lastIndex)
      invariant done + Regions(content, lastIndex) == Regions(content, 0)
      invariant codeBlocks == Codes(content, done)
      decreases |content| - lastIndex
    {
      var r := m.value;
      LoopStep(content, done, lastIndex, r);
      codeBlocks := codeBlocks + [BlockContent(content[r.start..r.end])];
      done := done + [r];
      lastIndex := r.end;
      m := Exec(content, lastIndex);
    }
    assert done == Regions(content, 0) by {
      assert Regions(content, lastIndex) == [];
      assert done + [] == done;
    }
    var regularText := Replaced(content, 0);
    result := Extraction(regularText, Join(codeBlocks, " "), |codeBlocks|);
  }
}
