/** The unit tests of both line-matching functions, stated as lemmas about
    the model. Each contents string is written as the concatenation of its
    lines and newlines, which is the same string as the test's literal. */
module MatcherExamples {
  import opened Seqs
  import opened Text
  import opened Matcher

  /** A line free of line breaks and carriage returns. */
  predicate PlainLine(a: string)
  {
    forall k :: 0 <= k < |a| ==> a[k] != '\n' && a[k] != '\r'
  }

  lemma PlainLineFacts(a: string)
    requires PlainLine(a)
    ensures '\n' !in a && StripCR(a) == a
  {
    if |a| > 0 {
      assert a[|a| - 1] != '\r';
    }
  }

  lemma LinesOfTwo(a: string, b: string)
    requires PlainLine(a) && PlainLine(b)
    ensures Lines(a + "\n" + b + "\n") == [a, b]
  {
    PlainLineFacts(a);
    PlainLineFacts(b);
    assert a + "\n" + b + "\n" == a + "\n" + (b + "\n" + "");
    LinesCons(a, b + "\n" + "");
    LinesCons(b, "");
  }

  lemma LinesOfThree(a: string, b: string, c: string)
    requires PlainLine(a) && PlainLine(b) && PlainLine(c)
    ensures Lines(a + "\n" + b + "\n" + c + "\n") == [a, b, c]
  {
    var t := b + "\n" + c + "\n";
    PlainLineFacts(a);
    FirstLineApart(a, b, c);
    LinesCons(a, t);
    LinesOfTwo(b, c);
  }

  lemma FirstLineApart(a: string, b: string, c: string)
    ensures a + "\n" + b + "\n" + c + "\n" == a + "\n" + (b + "\n" + c + "\n")
  {
  }

  /** Two lines, the second without a final newline. */
  lemma LinesOfTwoUnterminated(a: string, b: string)
    requires PlainLine(a) && PlainLine(b) && b != []
    ensures Lines(a + "\n" + b) == [a, b]
  {
    PlainLineFacts(a);
    PlainLineFacts(b);
    LinesCons(a, b);
    assert LineEnd(b) == |b|;
  }

  /** Two plain lines, the second unterminated: each is kept exactly when it
      matches. */
  lemma UnterminatedSelection(query: string, a: string, b: string, insensitive: bool)
    requires LiteralPattern(query) && PlainLine(a) && PlainLine(b) && b != []
    ensures LineMatching(query, a + "\n" + b, insensitive, false) ==
      (if IsMatch(a, query, insensitive, false) then [a] else []) +
      (if IsMatch(b, query, insensitive, false) then [b] else [])
  {
    LinesOfTwoUnterminated(a, b);
    FilterOfTwo(a, b, Selector(query, insensitive, false));
  }

  lemma FilterOfTwo(a: string, b: string, p: string -> bool)
    ensures Filter([a, b], p) == (if p(a) then [a] else []) + (if p(b) then [b] else [])
  {
    assert [a, b][1..] == [b];
  }

  lemma FilterOfThree(a: string, b: string, c: string, p: string -> bool)
    ensures Filter([a, b, c], p) == (if p(a) then [a] else []) + (if p(b) then [b] else []) + (if p(c) then [c] else [])
  {
    assert [a, b, c][1..] == [b, c];
    FilterOfTwo(b, c, p);
  }

  /** Two plain lines: each is kept exactly when it matches. */
  lemma TwoLineSelection(query: string, a: string, b: string, insensitive: bool, wholeWord: bool)
    requires LiteralPattern(query) && PlainLine(a) && PlainLine(b)
    ensures LineMatching(query, a + "\n" + b + "\n", insensitive, wholeWord) ==
      (if IsMatch(a, query, insensitive, wholeWord) then [a] else []) +
      (if IsMatch(b, query, insensitive, wholeWord) then [b] else [])
  {
    LinesOfTwo(a, b);
    FilterOfTwo(a, b, Selector(query, insensitive, wholeWord));
  }

  /** Three plain lines: each is kept exactly when it matches. */
  lemma ThreeLineSelection(query: string, a: string, b: string, c: string, insensitive: bool, wholeWord: bool)
    requires LiteralPattern(query) && PlainLine(a) && PlainLine(b) && PlainLine(c)
    ensures LineMatching(query, a + "\n" + b + "\n" + c + "\n", insensitive, wholeWord) ==
      (if IsMatch(a, query, insensitive, wholeWord) then [a] else []) +
      (if IsMatch(b, query, insensitive, wholeWord) then [b] else []) +
      (if IsMatch(c, query, insensitive, wholeWord) then [c] else [])
  {
    LinesOfThree(a, b, c);
    FilterOfThree(a, b, c, Selector(query, insensitive, wholeWord));
  }

  /** "there there" holds "the" twice, each time followed by a word character. */
  lemma ThereIsNoWholeThe(insensitive: bool)
    ensures !IsMatch("there there", "the", insensitive, true)
  {
    var line := "there there";
    var f := Fold(line, insensitive);
    forall i | 0 <= i <= |line|
      ensures !MatchAt(line, "the", insensitive, true, i)
    {
      if i == 0 { assert IsWordChar(line[2]) && IsWordChar(line[3]); }
      else if i == 1 { assert f[1..4][0] != 't'; }
      else if i == 2 { assert f[2..5][0] != 't'; }
      else if i == 3 { assert f[3..6][0] != 't'; }
      else if i == 4 { assert f[4..7][0] != 't'; }
      else if i == 5 { assert f[5..8][0] != 't'; }
      else if i == 6 { assert IsWordChar(line[8]) && IsWordChar(line[9]); }
      else if i == 7 { assert f[7..10][0] != 't'; }
      else if i == 8 { assert f[8..11][0] != 't'; }
    }
  }

  /** `q` read character by character at position `i` of `s`. */
  lemma OccursByChars(s: string, q: string, i: nat)
    requires i + |q| <= |s| && forall k :: 0 <= k < |q| ==> s[i + k] == q[k]
    ensures OccursAt(s, q, i)
  {
    assert s[i..i + |q|] == q;
  }

  lemma ScenarioLinesPlain()
    ensures PlainLine("The quick brown fox") && PlainLine("the quick brown fox")
    ensures PlainLine("Jumps over the lazy dog") && PlainLine("there there")
    ensures PlainLine("the") && PlainLine("The") && PlainLine("the end")
    ensures PlainLine("No") && PlainLine("matches") && PlainLine("hello") && PlainLine("there")
  {
  }

  /** "the" starts at position 11 of "Jumps over the lazy dog". */
  lemma DogHasThe(insensitive: bool)
    ensures IsMatch("Jumps over the lazy dog", "the", insensitive, false)
  {
    var line := "Jumps over the lazy dog";
    OccursByChars(Fold(line, insensitive), Fold("the", insensitive), 11);
    assert MatchAt(line, "the", insensitive, false, 11);
  }

  /** "The" opens "The quick brown fox": a whole word, ignoring case. */
  lemma FoxHasTheIgnoringCase(wholeWord: bool)
    ensures IsMatch("The quick brown fox", "the", true, wholeWord)
  {
    var line := "The quick brown fox";
    OccursByChars(Lower(line), Lower("the"), 0);
    assert !IsWordChar(line[3]);
    assert MatchAt(line, "the", true, wholeWord, 0);
  }

  /** "The quick brown fox" holds no lowercase 't'. */
  lemma FoxLacksThe(wholeWord: bool)
    ensures !IsMatch("The quick brown fox", "the", false, wholeWord)
  {
    var line := "The quick brown fox";
    assert 't' !in line;
    AbsentFirstChar(line, "the", false, wholeWord);
  }

  /** "the" opens "the quick brown fox" as a whole word. */
  lemma LowerFoxHasWholeThe()
    ensures IsMatch("the quick brown fox", "the", false, true)
  {
    var line := "the quick brown fox";
    OccursByChars(line, "the", 0);
    assert !IsWordChar(line[3]);
    assert MatchAt(line, "the", false, true, 0);
  }

  /** Case-sensitive "the" skips "The quick brown fox". */
  lemma SensitiveScenario()
    ensures CaseSensitiveLineMatching("the", "The quick brown fox" + "\n" + "Jumps over the lazy dog" + "\n", false)
         == ["Jumps over the lazy dog"]
  {
    ScenarioLinesPlain();
    TwoLineSelection("the", "The quick brown fox", "Jumps over the lazy dog", false, false);
    FoxLacksThe(false);
    DogHasThe(false);
  }

  /** Case-insensitive "the" keeps both lines, in their original casing. */
  lemma InsensitiveScenario()
    ensures CaseInsensitiveLineMatching("the", "The quick brown fox" + "\n" + "Jumps over the lazy dog" + "\n", false)
         == ["The quick brown fox", "Jumps over the lazy dog"]
  {
    ScenarioLinesPlain();
    TwoLineSelection("the", "The quick brown fox", "Jumps over the lazy dog", true, false);
    FoxHasTheIgnoringCase(false);
    DogHasThe(true);
  }

  /** Whole-word "the" keeps "the quick brown fox" and not "there there". */
  lemma SensitiveWholeWordScenario()
    ensures CaseSensitiveLineMatching("the", "the quick brown fox" + "\n" + "there there" + "\n", true)
         == ["the quick brown fox"]
  {
    ScenarioLinesPlain();
    TwoLineSelection("the", "the quick brown fox", "there there", false, true);
    LowerFoxHasWholeThe();
    ThereIsNoWholeThe(false);
  }

  /** The same under `(?i)`, with "The" starting the first line. */
  lemma InsensitiveWholeWordScenario()
    ensures CaseInsensitiveLineMatching("the", "The quick brown fox" + "\n" + "there there" + "\n", true)
         == ["The quick brown fox"]
  {
    ScenarioLinesPlain();
    TwoLineSelection("the", "The quick brown fox", "there there", true, true);
    FoxHasTheIgnoringCase(true);
    ThereIsNoWholeThe(true);
  }

  /** "the" and "The" both hold "the", the second only ignoring case. */
  lemma TheHasThe(insensitive: bool)
    ensures IsMatch("the", "the", insensitive, false)
    ensures insensitive ==> IsMatch("The", "the", insensitive, false)
  {
    OccursByChars(Fold("the", insensitive), Fold("the", insensitive), 0);
    assert MatchAt("the", "the", insensitive, false, 0);
    if insensitive {
      OccursByChars(Lower("The"), Lower("the"), 0);
      assert MatchAt("The", "the", true, false, 0);
    }
  }

  /** Identical matching lines are each kept. */
  lemma SensitiveDuplicatesScenario()
    ensures CaseSensitiveLineMatching("the", "the" + "\n" + "the" + "\n" + "the" + "\n", false)
         == ["the", "the", "the"]
  {
    ScenarioLinesPlain();
    ThreeLineSelection("the", "the", "the", "the", false, false);
    TheHasThe(false);
  }

  /** Under `(?i)` "The" is kept beside "the", unchanged. */
  lemma InsensitiveDuplicatesScenario()
    ensures CaseInsensitiveLineMatching("the", "the" + "\n" + "the" + "\n" + "The" + "\n", false)
         == ["the", "the", "The"]
  {
    ScenarioLinesPlain();
    ThreeLineSelection("the", "the", "the", "The", true, false);
    TheHasThe(true);
  }

  /** "the end" starts with "the". */
  lemma TheEndHasThe(insensitive: bool)
    ensures IsMatch("the end", "the", insensitive, false)
  {
    OccursByChars(Fold("the end", insensitive), Fold("the", insensitive), 0);
    assert MatchAt("the end", "the", insensitive, false, 0);
  }

  /** A third line "the end" is kept after the second, in order. */
  lemma SensitiveMultipleScenario()
    ensures CaseSensitiveLineMatching("the", "The quick brown fox" + "\n" + "Jumps over the lazy dog" + "\n" + "the end" + "\n", false)
         == ["Jumps over the lazy dog", "the end"]
  {
    ScenarioLinesPlain();
    ThreeLineSelection("the", "The quick brown fox", "Jumps over the lazy dog", "the end", false, false);
    FoxLacksThe(false);
    DogHasThe(false);
    TheEndHasThe(false);
  }

  /** Under `(?i)` all three lines are kept, in order. */
  lemma InsensitiveMultipleScenario()
    ensures CaseInsensitiveLineMatching("the", "The quick brown fox" + "\n" + "Jumps over the lazy dog" + "\n" + "the end" + "\n", false)
         == ["The quick brown fox", "Jumps over the lazy dog", "the end"]
  {
    ScenarioLinesPlain();
    ThreeLineSelection("the", "The quick brown fox", "Jumps over the lazy dog", "the end", true, false);
    FoxHasTheIgnoringCase(false);
    DogHasThe(true);
    TheEndHasThe(true);
  }

  /** Neither "No" nor "matches" holds "the", in either case. */
  lemma NoMatchesLackThe(insensitive: bool)
    ensures !IsMatch("No", "the", insensitive, false)
    ensures !IsMatch("matches", "the", insensitive, false)
  {
    var line := "matches";
    var f := Fold(line, insensitive);
    forall i | 0 <= i <= |line|
      ensures !MatchAt(line, "the", insensitive, false, i)
    {
      if i == 0 { assert f[0..3][0] != 't'; }
      else if i == 1 { assert f[1..4][0] != 't'; }
      else if i == 2 { assert f[2..5][1] != 'h'; }
      else if i == 3 { assert f[3..6][0] != 't'; }
      else if i == 4 { assert f[4..7][0] != 't'; }
    }
    var no := "No";
    forall i | 0 <= i <= |no|
      ensures !MatchAt(no, "the", insensitive, false, i)
    {
    }
  }

  /** "No\nmatches", with no final newline, selects nothing. */
  lemma NoMatchesScenario(insensitive: bool)
    ensures LineMatching("the", "No" + "\n" + "matches", insensitive, false) == []
  {
    ScenarioLinesPlain();
    UnterminatedSelection("the", "No", "matches", insensitive);
    NoMatchesLackThe(insensitive);
  }

  /** "hello" is the only line of "hello\nthere" holding "hello". */
  lemma OneWordPerLineScenario(insensitive: bool)
    ensures LineMatching("hello", "hello" + "\n" + "there", insensitive, false) == ["hello"]
  {
    ScenarioLinesPlain();
    UnterminatedSelection("hello", "hello", "there", insensitive);
    OccursByChars(Fold("hello", insensitive), Fold("hello", insensitive), 0);
    assert MatchAt("hello", "hello", insensitive, false, 0);
    var f := Fold("there", insensitive);
    forall i | 0 <= i <= 5
      ensures !MatchAt("there", "hello", insensitive, false, i)
    {
      if i == 0 { assert f[0..5][0] != 'h'; }
    }
  }
}
