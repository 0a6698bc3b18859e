/** Line selection: `case_sensitive_line_matching` and
    `case_insensitive_line_matching`. The regular-expression engine is
    replaced by its meaning on literal patterns: the query occurs in the line,
    after ASCII lowercasing of both under `(?i)`, and with a word boundary at
    both ends of the occurrence under `\b…\b`. */
module Matcher {
  import opened Seqs
  import opened Text

  /** Characters with a special meaning in a regular expression. */
  const RegexMeta: string := "\\.+*?()|[]{}^$"

  /** An ASCII query free of metacharacters: `Regex::new` accepts it (so its
      `unwrap` does not panic), and the compiled expression matches exactly
      the query's own text. */
  predicate LiteralPattern(q: string)
  {
    forall k :: 0 <= k < |q| ==> q[k] !in RegexMeta && q[k] < 128 as char
  }

  /** `\b` at position `p` of `s`: the characters on either side (a missing
      one counts as a non-word character) differ in being word characters. */
  predicate Boundary(s: string, p: nat)
    requires p <= |s|
  {
    (p > 0 && IsWordChar(s[p - 1])) != (p < |s| && IsWordChar(s[p]))
  }

  /** The text a comparison sees: lowercased under `(?i)`. */
  function Fold(s: string, insensitive: bool): string
  {
    if insensitive then Lower(s) else s
  }

  /** The compiled query matches `line` at position `i`. */
  predicate MatchAt(line: string, query: string, insensitive: bool, wholeWord: bool, i: nat)
  {
    i + |query| <= |line| &&
    OccursAt(Fold(line, insensitive), Fold(query, insensitive), i) &&
    (wholeWord ==> Boundary(line, i) && Boundary(line, i + |query|))
  }

  /** `regex_query.is_match(line)`. */
  predicate IsMatch(line: string, query: string, insensitive: bool, wholeWord: bool)
  {
    exists i :: 0 <= i <= |line| && MatchAt(line, query, insensitive, wholeWord, i)
  }

  /** The filter closure of both line-matching functions. */
  function Selector(query: string, insensitive: bool, wholeWord: bool): string -> bool
  {
    line => IsMatch(line, query, insensitive, wholeWord)
  }

  /** `case_sensitive_line_matching`: the lines of `contents` in which the
      query occurs (as a whole word when `wholeWord`). */
  function CaseSensitiveLineMatching(query: string, contents: string, wholeWord: bool): (r: seq<string>)
    requires LiteralPattern(query)
    ensures forall k :: 0 <= k < |r| ==> r[k] in Lines(contents) && IsMatch(r[k], query, false, wholeWord)
  {
    Filter(Lines(contents), Selector(query, false, wholeWord))
  }

  /** `case_insensitive_line_matching`: the same with `(?i)`; the lines keep
      their original casing. */
  function CaseInsensitiveLineMatching(query: string, contents: string, wholeWord: bool): (r: seq<string>)
    requires LiteralPattern(query)
    ensures forall k :: 0 <= k < |r| ==> r[k] in Lines(contents) && IsMatch(r[k], query, true, wholeWord)
  {
    Filter(Lines(contents), Selector(query, true, wholeWord))
  }

  /** Either function, chosen by the `insensitive` flag. */
  function LineMatching(query: string, contents: string, insensitive: bool, wholeWord: bool): seq<string>
    requires LiteralPattern(query)
  {
    if insensitive then CaseInsensitiveLineMatching(query, contents, wholeWord)
    else CaseSensitiveLineMatching(query, contents, wholeWord)
  }

  /** The result is exactly the subsequence of `contents.lines()` whose lines
      match: `idx` lists their positions in increasing order, every matching
      line is listed (duplicates included) and no other. */
  lemma SelectsExactly(query: string, contents: string, insensitive: bool, wholeWord: bool)
    returns (idx: seq<nat>)
    requires LiteralPattern(query)
    ensures |idx| == |LineMatching(query, contents, insensitive, wholeWord)|
    ensures forall k :: 0 <= k < |idx| ==>
      idx[k] < |Lines(contents)| && LineMatching(query, contents, insensitive, wholeWord)[k] == Lines(contents)[idx[k]]
    ensures forall k, m :: 0 <= k < m < |idx| ==> idx[k] < idx[m]
    ensures forall j :: 0 <= j < |Lines(contents)| ==>
      (j in idx <==> IsMatch(Lines(contents)[j], query, insensitive, wholeWord))
  {
    idx := FilterSelects(Lines(contents), Selector(query, insensitive, wholeWord));
  }

  /** Empty contents has no lines, so nothing is selected, whatever the query. */
  lemma EmptyContentsSelectsNothing(query: string, insensitive: bool, wholeWord: bool)
    requires LiteralPattern(query)
    ensures LineMatching(query, "", insensitive, wholeWord) == []
  {
  }

  /** The empty query matches every line: the result is `contents.lines()`. */
  lemma EmptyQuerySelectsAll(contents: string, insensitive: bool)
    ensures LineMatching("", contents, insensitive, false) == Lines(contents)
  {
    var lines := Lines(contents);
    forall l | l in lines
      ensures Selector("", insensitive, false)(l)
    {
      assert MatchAt(l, "", insensitive, false, 0);
    }
    FilterKeepsAll(lines, Selector("", insensitive, false));
  }

  /** An occurrence that is a whole word is also an occurrence. */
  lemma WholeWordMatchIsMatch(line: string, query: string, insensitive: bool)
    requires IsMatch(line, query, insensitive, true)
    ensures IsMatch(line, query, insensitive, false)
  {
    var i :| 0 <= i <= |line| && MatchAt(line, query, insensitive, true, i);
    assert MatchAt(line, query, insensitive, false, i);
  }

  /** Whole-word mode only narrows the selection: its result is a
      subsequence of the plain result. */
  lemma WholeWordNarrows(query: string, contents: string, insensitive: bool)
    requires LiteralPattern(query)
    ensures IsSubsequence(LineMatching(query, contents, insensitive, true),
                          LineMatching(query, contents, insensitive, false))
  {
    forall l | l in Lines(contents) && Selector(query, insensitive, true)(l)
      ensures Selector(query, insensitive, false)(l)
    {
      WholeWordMatchIsMatch(l, query, insensitive);
    }
    FilterMonotone(Lines(contents), Selector(query, insensitive, true), Selector(query, insensitive, false));
  }

  lemma LowerSlice(s: string, i: nat, j: nat)
    requires i <= j <= |s|
    ensures Lower(s)[i..j] == Lower(s[i..j])
  {
  }

  /** A case-sensitive match is also a case-insensitive one. */
  lemma SensitiveMatchIsInsensitiveMatch(line: string, query: string, wholeWord: bool)
    requires IsMatch(line, query, false, wholeWord)
    ensures IsMatch(line, query, true, wholeWord)
  {
    var i :| 0 <= i <= |line| && MatchAt(line, query, false, wholeWord, i);
    LowerSlice(line, i, i + |query|);
    assert MatchAt(line, query, true, wholeWord, i);
  }

  /** Case-insensitive selection keeps every line the case-sensitive one
      keeps, in the same order. */
  lemma InsensitiveWidens(query: string, contents: string, wholeWord: bool)
    requires LiteralPattern(query)
    ensures IsSubsequence(CaseSensitiveLineMatching(query, contents, wholeWord),
                          CaseInsensitiveLineMatching(query, contents, wholeWord))
  {
    forall l | l in Lines(contents) && Selector(query, false, wholeWord)(l)
      ensures Selector(query, true, wholeWord)(l)
    {
      SensitiveMatchIsInsensitiveMatch(l, query, wholeWord);
    }
    FilterMonotone(Lines(contents), Selector(query, false, wholeWord), Selector(query, true, wholeWord));
  }

  /** A query whose first character does not appear in the line cannot match. */
  lemma AbsentFirstChar(line: string, query: string, insensitive: bool, wholeWord: bool)
    requires |query| > 0 && Fold(query, insensitive)[0] !in Fold(line, insensitive)
    ensures !IsMatch(line, query, insensitive, wholeWord)
  {
    var f, fq := Fold(line, insensitive), Fold(query, insensitive);
    forall i | 0 <= i <= |line|
      ensures !MatchAt(line, query, insensitive, wholeWord, i)
    {
      if i + |query| <= |line| {
        assert f[i] in f;
        assert f[i..i + |query|][0] != fq[0];
      }
    }
  }
}
