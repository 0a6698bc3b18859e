# simple-grep, modelled in Dafny

`simple-grep` is a small line-oriented search tool. It takes a pattern and a
file, or a directory with `-r`. It prints the lines of the file that match,
with each match shown in bold red, or with `-c` only the number of such
lines. `-i` makes the match ignore case and `-w` requires a whole word. With
`-r` it searches every regular file below the directory and prefixes each
printed line with the file's path.

This project models the library behind the command, `src/lib.rs`:

- `Text`: the standard-library string operations the search relies on.
  These are `str::lines` (split on `'\n'`, drop a `'\r'` before it, no empty
  line after a final newline), ASCII lowercasing and `str::find`.
- `Seqs`: order-preserving filtering of a sequence. This is what
  `lines().filter(..).collect()` computes.
- `Matcher`: `case_sensitive_line_matching` and
  `case_insensitive_line_matching`. The regular expression is modelled by
  its meaning on a literal query: the query occurs in the line, after
  lowercasing both under `(?i)`, with a word boundary at both ends of the
  occurrence under `\b…\b`.
- `MatcherExamples`: the unit tests of the two line-matching functions on
  concrete text, each stated as a lemma about the model. The six tests on
  empty contents or an empty query (`src/lib.rs:300-328` and
  `src/lib.rs:392-420`) are covered by the general lemmas
  `Matcher.EmptyContentsSelectsNothing` and `Matcher.EmptyQuerySelectsAll`
  instead.
- `Highlight`: the case-insensitive highlight loop. A cursor walks the
  lowercased line, finds the next occurrence of the lowercased query, wraps
  the matched text in the markers `ESC[1;31m` and `ESC[0m` with
  `String::replace`, and jumps to the end of the occurrence. It is modelled
  as a method with a loop, proved against the sequence of spans the cursor
  visits.
- `Grep`: `read_file_and_print_matches` and `read_dir_and_print_matches`,
  as methods. The file's text and the directory walk's entries are inputs.
  The printed output is returned as a sequence of lines, each a path
  prefix and a body.

## Model

| member | source | states |
|---|---|---|
| Text.Lines | src/lib.rs:171-172 | `contents.lines()`: no line holds a `'\n'`, there are no more lines than characters, and non-empty text has at least one line |
| Text.LinesCons | src/lib.rs:171-172 | a line followed by `'\n'` contributes exactly that line, minus one trailing `'\r'` |
| Text.UnlinesLines | src/lib.rs:171-172 | splitting text without `'\r'` and re-terminating every line gives the text back, plus a `'\n'` when the last line was unterminated |
| Text.LinesUnlines | src/lib.rs:171-172 | lines free of `'\n'` and of a trailing `'\r'`, each terminated by `'\n'`, split back into the same lines |
| Text.FindFrom | src/lib.rs:92 | `lowercase_line[start..].find(..)` shifted back by `start`: the first occurrence at or after the cursor, or `None` when there is no occurrence at or after it |
| Seqs.FilterSelects | src/lib.rs:171-174 | `filter(..).collect()` keeps exactly the elements satisfying the predicate, at increasing positions, each one of them, duplicates included |
| Seqs.FilterMonotone | src/lib.rs:173 | filtering with a weaker predicate keeps a supersequence |
| Matcher.CaseSensitiveLineMatching | src/lib.rs:162-175 | every line returned is a line of `contents` that contains the query (as a whole word when `whole_word`) |
| Matcher.CaseInsensitiveLineMatching | src/lib.rs:177-190 | every line returned is a line of `contents`, in its original casing, that contains the query ignoring ASCII case |
| Matcher.SelectsExactly | src/lib.rs:162-190 | the result is `contents.lines()` read at increasing positions, and a position is listed exactly when its line matches, so order and duplicates are kept |
| Matcher.EmptyContentsSelectsNothing | src/lib.rs:300-308 | empty contents selects nothing, for every query, case mode and word mode |
| Matcher.EmptyQuerySelectsAll | src/lib.rs:310-318 | without `-w`, the empty query selects `contents.lines()` unchanged, in both case modes |
| Matcher.WholeWordMatchIsMatch | src/lib.rs:167-169 | a whole-word match is also a plain match |
| Matcher.WholeWordNarrows | src/lib.rs:182-184 | the whole-word result is a subsequence of the plain result |
| Matcher.SensitiveMatchIsInsensitiveMatch | src/lib.rs:179 | a case-sensitive match is also a `(?i)` match |
| Matcher.InsensitiveWidens | src/lib.rs:177-190 | the case-sensitive result is a subsequence of the case-insensitive result |
| Matcher.AbsentFirstChar | src/lib.rs:173 | a query whose first character does not occur in the line does not match it |
| MatcherExamples.SensitiveScenario | src/lib.rs:251-258 | case-sensitive "the" selects only "Jumps over the lazy dog" |
| MatcherExamples.InsensitiveScenario | src/lib.rs:343-350 | case-insensitive "the" selects both lines, in their original casing |
| MatcherExamples.NoMatchesScenario | src/lib.rs:261-268 | "No\nmatches" selects nothing, in either case mode |
| MatcherExamples.SensitiveMultipleScenario | src/lib.rs:271-278 | "the" selects the second and third lines, in order |
| MatcherExamples.InsensitiveMultipleScenario | src/lib.rs:363-370 | under `(?i)` "the" selects all three lines, in order |
| MatcherExamples.OneWordPerLineScenario | src/lib.rs:281-288 | "hello" selects only "hello" from "hello\nthere", in either case mode |
| MatcherExamples.SensitiveDuplicatesScenario | src/lib.rs:291-298 | three identical matching lines are all kept |
| MatcherExamples.InsensitiveDuplicatesScenario | src/lib.rs:383-390 | "the", "the", "The" are all kept under `(?i)`, unchanged |
| MatcherExamples.SensitiveWholeWordScenario | src/lib.rs:331-338 | whole-word "the" keeps "the quick brown fox" and drops "there there" |
| MatcherExamples.InsensitiveWholeWordScenario | src/lib.rs:423-430 | the same under `(?i)`, with "The" opening the first line |
| MatcherExamples.ThereIsNoWholeThe | src/lib.rs:168 | "there there" holds no whole word "the", in either case mode |
| Highlight.GreedySpans | src/lib.rs:90-101 | the spans the cursor visits: each starts at or after the cursor, has the query's length, is an occurrence, ends before the next one starts, and lies within the line |
| Highlight.GreedySpansCover | src/lib.rs:92-100 | no occurrence is skipped: every occurrence at or after the cursor starts inside a visited span (an overlapping occurrence is jumped over, not visited) |
| Highlight.SelectedLineHasSpan | src/lib.rs:85-101 | a line that case-insensitive selection keeps gets at least one highlighted span, with or without `-w` |
| Highlight.ReplaceAll | src/lib.rs:97 | `str::replace` leaves a text without occurrences unchanged |
| Highlight.ReplaceAtStart | src/lib.rs:97 | when the text starts with the replaced piece, the result starts with its replacement |
| Highlight.ReplaceInserts | src/lib.rs:97 | a text holding the replaced piece comes out holding its replacement, so a visited span's marked form appears in `result` right after that turn; later turns may rewrite it |
| Highlight.HighlightInsensitive | src/lib.rs:85-101 | for a non-empty query the loop visits exactly the greedy spans; each ends within the line and equals the query up to ASCII case; spans are ordered and disjoint; the result is the line with every visited span's text replaced in turn by its marked form |
| Highlight.GreedySpansMatchPattern | src/lib.rs:94-97 | read in the original line, each visited span is the query up to ASCII case |
| Highlight.CursorStep | src/lib.rs:92-100 | one turn of the loop as written: when the cursor moves, it moves to at least `start + pattern.len()` and stays within the line |
| Highlight.EmptyPatternStalls | src/lib.rs:92-100 | with the empty query the turn leaves the cursor where it was |
| Highlight.NonEmptyPatternAdvances | src/lib.rs:94-100 | with a non-empty query every turn moves the cursor strictly forward |
| Highlight.HighlightLine | src/lib.rs:85-103 | the highlight of one selected line: the line unchanged for the empty query, the loop's result otherwise |
| Grep.ReadFileAndPrintMatches | src/lib.rs:45-126 | the status is an error exactly when the file cannot be read, and the output is one count line in count mode or one rendered line per selected line, in order |
| Grep.CountIsListingLength | src/lib.rs:58-64 | the count printed with `-c` is the number of lines printed without it |
| Grep.ListingFollowsSelection | src/lib.rs:68-122 | without `-c` the i-th printed line renders the i-th selected line |
| Grep.ListingAt | src/lib.rs:73-122 | each printed line renders the selected line at the same position |
| Grep.PrefixOnlyWhenRecursive | src/lib.rs:53-56 | every printed line carries `"{files}: "` when `recursive` is set and no prefix otherwise |
| Grep.UnreadablePrintsNothing | src/lib.rs:47 | a file that cannot be read prints nothing |
| Grep.ReadDirAndPrintMatches | src/lib.rs:135-160 | the status is always success, one argument is built per regular file in walk order, and the output is the files' outputs concatenated |
| Grep.DispatchedArguments | src/lib.rs:142-152 | the arguments built match the regular-file entries one for one: `files` is the entry's path, `recursive` is set, every other field is copied |
| Grep.DirOutputFilesOnly | src/lib.rs:139-142 | walk errors and directories print nothing |
| Grep.DirOutputAppend | src/lib.rs:139-157 | the output of a walk is the output of its first part followed by that of the rest |
| Grep.UnreadableFileSkipped | src/lib.rs:155 | an unreadable file is skipped: the walk prints what it prints without that file |
| Grep.UnreadableAndReadableScenario | src/lib.rs:155 | a directory with one unreadable file and one readable file prints exactly the readable file's own output |
| Grep.DirOutputLabelled | src/lib.rs:151 | every line the walk prints is prefixed with the path of a regular file of the walk |
| Grep.CountModeOneLinePerFile | src/lib.rs:58-65 | in count mode the walk prints exactly one line per readable regular file, in walk order: the k-th is that file's path followed by `": "` and the number of lines selected in that file alone |

## Left out

- The regular-expression engine is not modelled. Queries are restricted to
  ASCII text free of metacharacters (`Matcher.LiteralPattern`). That
  restriction also stands for "`Regex::new(..).unwrap()` does not panic",
  so the panic on an invalid pattern appears only as a precondition.
- The case-sensitive highlight (`replace_all` of the compiled regular
  expression) is not modelled: the printed body `RegexMarked(line)` only
  records which line was printed.
- Unicode is not modelled. Lowercasing, word characters and case-insensitive
  comparison are ASCII only, and positions are character positions. For
  ASCII text these coincide with byte offsets, and lowercasing keeps every
  offset.
- The text of the case-insensitive highlight follows `String::replace` as
  written. Each later replacement also rewrites text inside markers inserted
  earlier, so markers can nest or break an escape sequence. No claim is made
  that removing the markers gives back the line.
- Highlight.ReplaceAll: its contract states only that a text without
  occurrences is unchanged; `Highlight.ReplaceAtStart` and
  `Highlight.ReplaceInserts` add that an occurrence brings in the
  replacement. The full left-to-right, non-overlapping replacement is the
  function's definition.
- Reading a file, walking a directory and printing are I/O. The file's text
  (or its failure) and the walk's entries are inputs, in walk order.
  `WalkDir`'s order itself is not modelled. A path that is not valid UTF-8
  (the `to_str().unwrap()` panic) cannot occur, because paths are strings.
- Count output is kept as a number; its decimal rendering is not modelled.
- Command-line parsing with `clap` and `src/main.rs` (exit codes, the choice
  between the two entry points) are not part of this model.
- `str::lines` follows current Rust: a `'\r'` is dropped only before a
  `'\n'`, so a bare `'\r'` ending an unterminated last line is kept.
- Grep.ReadFileAndPrintMatches: with `-i` each selected line is rendered by
  the corrected highlight `Highlight.HighlightLine` (see "## Findings"). On
  the empty query with `-i` and without `-c`, the program as written never
  finishes the first selected line: it prints at most the path prefix and
  never returns `Ok`. The model instead returns `Success` and prints every
  selected line unchanged.
- Grep.ReadDirAndPrintMatches: it dispatches to
  `Grep.ReadFileAndPrintMatches`, so it inherits the same correction. On
  `-r -i ""` without `-c`, the program as written stops at the first readable
  file with a selected line and never finishes the walk. The model always
  finishes with `Success`.
- Three behaviours a user of a grep-like tool might expect are not what the
  code does, and the model follows the code:
  - One might expect `-c -r` to print a single total. The code prints one
    count per readable file (`Grep.CountModeOneLinePerFile`).
  - One might expect an unreadable file under `-r` to be reported. The code
    discards the error and goes on (`Grep.UnreadableFileSkipped`).
  - One might expect each match to be marked exactly where it was found.
    The code marks it with `String::replace` over the whole line, so removing
    the markers need not give back the line.

## Findings

| source | as written | input that shows it | evidently intended | confidence | as-written member | corrected member |
|---|---|---|---|---|---|---|
| src/lib.rs:92-100 | With `-i`, the highlight loop moves its cursor to the index found plus the query's length. For the empty query, `find` returns the cursor itself, so the cursor never moves and the loop never ends. Each turn also runs `result.replace("", marker)`, which inserts the 11-character marker `ESC[1;31mESC[0m` at every position. The line therefore grows about twelvefold per turn, and the run ends in an allocation failure rather than a quiet hang. | pattern `""` with `-i` and without `-c`, on a file with at least one selected line: any non-empty file without `-w`, or a line holding a word character with `-w` (count mode never reaches the loop) | print each selected line unchanged, since the empty query has nothing to highlight, and terminate | not executed | `Highlight.EmptyPatternStalls` | `Highlight.HighlightLine` |
