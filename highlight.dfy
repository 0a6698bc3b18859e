/** The case-insensitive highlight of one selected line (lib.rs:85-101): a
    cursor walks the lowercased line, finds the next occurrence of the
    lowercased query with `str::find`, wraps the matched text in the bold-red
    markers with `String::replace`, and moves to the end of the occurrence.
    Characters are ASCII here, so lowercasing keeps every offset. */
module Highlight {
  import opened Wrappers
  import opened Text
  import opened Matcher

  /** `\x1b[1;31m`: bold, red foreground. */
  const StartMarker: string := "\U{1B}[1;31m"
  /** `\x1b[0m`: reset. */
  const EndMarker: string := "\U{1B}[0m"

  /** A half-open range `[start, end)` of positions of a line. */
  datatype Span = Span(start: nat, end: nat)

  /** The occurrences the cursor visits from `start`: the first one at or
      after the cursor, then the first one at or after its end, and so on. */
  function GreedySpans(s: string, q: string, start: nat): (r: seq<Span>)
    requires 0 < |q| && start <= |s|
    ensures forall k :: 0 <= k < |r| ==>
      start <= r[k].start && r[k].end == r[k].start + |q| && OccursAt(s, q, r[k].start)
    ensures forall k :: 0 < k < |r| ==> r[k - 1].end <= r[k].start
    ensures SpansWithin(r, |s|)
    decreases |s| - start
  {
    match FindFrom(s, q, start)
    case None => []
    case Some(i) => [Span(i, i + |q|)] + GreedySpans(s, q, i + |q|)
  }

  /** Position `p` lies in one of `spans`. */
  predicate Covered(spans: seq<Span>, p: nat)
  {
    exists k :: 0 <= k < |spans| && spans[k].start <= p < spans[k].end
  }

  /** No occurrence is skipped: every occurrence at or after `start` lies in
      one of the visited spans (it is a span, or overlaps one on its right). */
  lemma {:induction false} GreedySpansCover(s: string, q: string, start: nat, p: nat)
    requires 0 < |q| && start <= p && OccursAt(s, q, p)
    ensures start <= |s| && Covered(GreedySpans(s, q, start), p)
    decreases |s| - start
  {
    var found := FindFrom(s, q, start);
    assert found.Some?;
    var i := found.value;
    var rest := GreedySpans(s, q, i + |q|);
    var r := [Span(i, i + |q|)] + rest;
    assert GreedySpans(s, q, start) == r;
    if p < i + |q| {
      assert r[0].start <= p < r[0].end;
    } else {
      GreedySpansCover(s, q, i + |q|, p);
      CoveredCons(Span(i, i + |q|), rest, p);
    }
  }

  lemma CoveredCons(first: Span, rest: seq<Span>, p: nat)
    requires Covered(rest, p)
    ensures Covered([first] + rest, p)
  {
    var k :| 0 <= k < |rest| && rest[k].start <= p < rest[k].end;
    assert ([first] + rest)[k + 1] == rest[k];
  }

  /** A line that case-insensitive matching selects, for a non-empty query,
      gets at least one highlighted span, whole-word mode or not. */
  lemma SelectedLineHasSpan(line: string, pattern: string, wholeWord: bool)
    requires 0 < |pattern| && IsMatch(line, pattern, true, wholeWord)
    ensures |GreedySpans(Lower(line), Lower(pattern), 0)| > 0
  {
    var i :| 0 <= i <= |line| && MatchAt(line, pattern, true, wholeWord, i);
    GreedySpansCover(Lower(line), Lower(pattern), 0, i);
  }

  /** `str::replace`: every non-overlapping occurrence of `from`, scanning
      left to right, replaced by `to`. */
  function ReplaceAll(s: string, from: string, to: string): (r: string)
    requires 0 < |from|
    ensures (forall i: nat :: !OccursAt(s, from, i)) ==> r == s
    decreases |s|
  {
    if |s| < |from| then s
    else if s[..|from|] == from then
      assert OccursAt(s, from, 0);
      to + ReplaceAll(s[|from|..], from, to)
    else
      assert forall i: nat :: OccursAt(s[1..], from, i) ==> OccursAt(s, from, i + 1) by {
        forall i: nat | OccursAt(s[1..], from, i) ensures OccursAt(s, from, i + 1) {
          assert s[1..][i..i + |from|] == s[i + 1..i + 1 + |from|];
        }
      }
      [s[0]] + ReplaceAll(s[1..], from, to)
  }

  /** When the text starts with `from`, the replacement starts with `to`:
      the first occurrence is the first one rewritten. */
  lemma ReplaceAtStart(s: string, from: string, to: string)
    requires 0 < |from| && OccursAt(s, from, 0)
    ensures |to| <= |ReplaceAll(s, from, to)|
    ensures ReplaceAll(s, from, to)[..|to|] == to
  {
    assert s[..|from|] == from;
  }

  /** A text holding an occurrence of `from` comes out holding `to`: some
      occurrence is always rewritten. */
  lemma {:induction false} ReplaceInserts(s: string, from: string, to: string, i: nat)
    requires 0 < |from| && OccursAt(s, from, i)
    ensures exists j: nat :: OccursAt(ReplaceAll(s, from, to), to, j)
    decreases |s|
  {
    var r := ReplaceAll(s, from, to);
    if s[..|from|] == from {
      ReplaceAtStart(s, from, to);
      assert OccursAt(r, to, 0);
    } else {
      assert i > 0;
      assert OccursAt(s[1..], from, i - 1) by {
        assert s[1..][i - 1..i - 1 + |from|] == s[i..i + |from|];
      }
      ReplaceInserts(s[1..], from, to, i - 1);
      var j: nat :| OccursAt(ReplaceAll(s[1..], from, to), to, j);
      assert r == [s[0]] + ReplaceAll(s[1..], from, to);
      assert r[j + 1..j + 1 + |to|] == ReplaceAll(s[1..], from, to)[j..j + |to|];
      assert OccursAt(r, to, j + 1);
    }
  }

  /** `piece` between the two markers. */
  function Marked(piece: string): string
  {
    StartMarker + piece + EndMarker
  }

  /** Every span is a non-empty range of positions below `n`. */
  predicate SpansWithin(spans: seq<Span>, n: nat)
  {
    forall k :: 0 <= k < |spans| ==> spans[k].start < spans[k].end <= n
  }

  /** The text the loop leaves in `result`: starting from `result`, for each
      span in turn, every occurrence of that span's text is replaced by the
      marked text. */
  function MarkEach(result: string, line: string, spans: seq<Span>): string
    requires SpansWithin(spans, |line|)
    decreases |spans|
  {
    if spans == [] then result
    else
      var piece := line[spans[0].start..spans[0].end];
      MarkEach(ReplaceAll(result, piece, Marked(piece)), line, spans[1..])
  }

  lemma MarkFirst(result: string, line: string, first: Span, rest: seq<Span>)
    requires first.start < first.end <= |line| && SpansWithin(rest, |line|)
    ensures SpansWithin([first] + rest, |line|)
    ensures MarkEach(result, line, [first] + rest) ==
      MarkEach(ReplaceAll(result, line[first.start..first.end], Marked(line[first.start..first.end])), line, rest)
  {
    assert ([first] + rest)[1..] == rest;
    assert forall k :: 0 <= k < |rest| ==> rest[k] == ([first] + rest)[k + 1];
  }

  /** The loop at lib.rs:85-101 for a non-empty query. It returns the text
      printed and the spans the cursor visited; each span is an occurrence of
      the query ignoring ASCII case, the spans are in increasing order and do
      not overlap, and no occurrence is left outside them (GreedySpansCover). */
  method HighlightInsensitive(line: string, pattern: string) returns (result: string, spans: seq<Span>)
    requires 0 < |pattern|
    ensures spans == GreedySpans(Lower(line), Lower(pattern), 0)
    ensures forall k :: 0 <= k < |spans| ==>
      spans[k].end <= |line| && Lower(line[spans[k].start..spans[k].end]) == Lower(pattern)
    ensures forall k :: 0 < k < |spans| ==> spans[k - 1].end <= spans[k].start
    ensures result == MarkEach(line, line, spans)
  {
    result := line;
    var lowercaseLine := Lower(line);
    var lowercaseQuery := Lower(pattern);
    var start := 0;
    spans := [];
    ghost var all := GreedySpans(lowercaseLine, lowercaseQuery, 0);
    ghost var final := MarkEach(line, line, all);
    var found := FindFrom(lowercaseLine, lowercaseQuery, start);
    while found.Some?
      invariant |lowercaseLine| == |line| && |lowercaseQuery| == |pattern| && start <= |line|
      invariant found == FindFrom(lowercaseLine, lowercaseQuery, start)
      invariant spans + GreedySpans(lowercaseLine, lowercaseQuery, start) == all
      invariant MarkEach(result, line, GreedySpans(lowercaseLine, lowercaseQuery, start)) == final
      decreases |line| - start
    {
      var index := found.value;
      var end := index + |pattern|;
      var piece := line[index..end];
      CursorInvariant(line, lowercaseLine, lowercaseQuery, start, index, end, spans, result, all, final);
      result := ReplaceAll(result, piece, Marked(piece));
      spans := spans + [Span(index, end)];
      start := end;
      found := FindFrom(lowercaseLine, lowercaseQuery, start);
    }
    GreedySpansMatchPattern(line, pattern);
  }

  /** One turn of the loop keeps its invariant: the span found moves from
      the spans still to visit to the spans visited, and marking it first
      leaves the rest of the marking to the remaining spans. */
  lemma CursorInvariant(line: string, s: string, q: string, start: nat, i: nat, end: nat,
                        spans: seq<Span>, result: string, all: seq<Span>, final: string)
    requires |s| == |line| && 0 < |q| && start <= |s| && FindFrom(s, q, start) == Some(i) && end == i + |q|
    requires spans + GreedySpans(s, q, start) == all
    requires MarkEach(result, line, GreedySpans(s, q, start)) == final
    ensures end <= |line| && SpansWithin(GreedySpans(s, q, end), |line|)
    ensures (spans + [Span(i, end)]) + GreedySpans(s, q, end) == all
    ensures MarkEach(ReplaceAll(result, line[i..end], Marked(line[i..end])), line, GreedySpans(s, q, end)) == final
  {
    var rest := GreedySpans(s, q, end);
    GreedySpansStep(s, q, start);
    assert GreedySpans(s, q, start) == [Span(i, end)] + rest;
    MarkFirst(result, line, Span(i, end), rest);
    MoveFirst(spans, Span(i, end), rest);
  }

  /** One step of GreedySpans: the first span found, then the rest. */
  lemma GreedySpansStep(s: string, q: string, start: nat)
    requires 0 < |q| && start <= |s| && FindFrom(s, q, start).Some?
    ensures GreedySpans(s, q, start) ==
      [Span(FindFrom(s, q, start).value, FindFrom(s, q, start).value + |q|)] + GreedySpans(s, q, FindFrom(s, q, start).value + |q|)
  {
  }

  lemma MoveFirst<T>(done: seq<T>, x: T, rest: seq<T>)
    ensures (done + [x]) + rest == done + ([x] + rest)
  {
  }

  /** Read in the original line, each span is the query up to ASCII case. */
  lemma GreedySpansMatchPattern(line: string, pattern: string)
    requires 0 < |pattern|
    ensures forall k :: 0 <= k < |GreedySpans(Lower(line), Lower(pattern), 0)| ==>
      GreedySpans(Lower(line), Lower(pattern), 0)[k].end <= |line| &&
      Lower(line[GreedySpans(Lower(line), Lower(pattern), 0)[k].start..GreedySpans(Lower(line), Lower(pattern), 0)[k].end]) == Lower(pattern)
  {
    var spans := GreedySpans(Lower(line), Lower(pattern), 0);
    forall k | 0 <= k < |spans|
      ensures spans[k].end <= |line| && Lower(line[spans[k].start..spans[k].end]) == Lower(pattern)
    {
      LowerSlice(line, spans[k].start, spans[k].end);
    }
  }

  /** One turn of the loop as written: the cursor jumps to
      `index + pattern.len()` after the next occurrence, or the loop stops. */
  function CursorStep(line: string, pattern: string, start: nat): (r: Option<nat>)
    requires start <= |line|
    ensures r.Some? ==> start + |pattern| <= r.value <= |line|
  {
    match FindFrom(Lower(line), Lower(pattern), start)
    case None => None
    case Some(index) => Some(index + |pattern|)
  }

  /** With an empty query `find` succeeds at the cursor itself, so the loop
      condition stays true and the cursor never moves: the loop runs forever
      on every selected line (and the empty query selects every line). */
  lemma EmptyPatternStalls(line: string, start: nat)
    requires start <= |line|
    ensures CursorStep(line, "", start) == Some(start)
  {
    assert OccursAt(Lower(line), Lower(""), start);
  }

  /** A non-empty query moves the cursor forward on every turn, which is what
      makes the loop terminate. */
  lemma NonEmptyPatternAdvances(line: string, pattern: string, start: nat)
    requires 0 < |pattern| && start <= |line| && CursorStep(line, pattern, start).Some?
    ensures start < CursorStep(line, pattern, start).value
  {
  }

  /** The printed text of a selected line under `-i`: the marked line, or the
      line itself for the empty query, which has nothing to mark. */
  function HighlightedText(line: string, pattern: string): string
  {
    if pattern == [] then line
    else MarkEach(line, line, GreedySpans(Lower(line), Lower(pattern), 0))
  }

  /** The highlight with the empty query handled: it terminates on every
      input, leaves the line unmarked for the empty query, and otherwise is
      the loop above. */
  method HighlightLine(line: string, pattern: string) returns (result: string, spans: seq<Span>)
    ensures pattern == [] ==> result == line && spans == []
    ensures pattern != [] ==> spans == GreedySpans(Lower(line), Lower(pattern), 0)
    ensures result == HighlightedText(line, pattern)
  {
    if pattern == [] {
      result, spans := line, [];
    } else {
      result, spans := HighlightInsensitive(line, pattern);
    }
  }
}
