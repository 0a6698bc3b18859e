/** The two entry points of the library. `read_file_and_print_matches`
    searches one file and prints either the number of selected lines or each
    selected line, highlighted; `read_dir_and_print_matches` runs it on every
    regular file a directory walk yields. The text of the file and the walk
    entries are inputs here, and what would go to standard output is
    returned as a sequence of printed lines. */
module Grep {
  import opened Wrappers
  import opened Seqs
  import opened Matcher
  import opened Highlight

  /** The command-line arguments (`struct Argument`). */
  datatype Argument = Argument(pattern: string, files: string, insensitive: bool, count: bool, word: bool, recursive: bool)

  /** What follows the path prefix on one printed line. */
  datatype Body =
    | Count(n: nat)
      /** A line highlighted by the case-insensitive loop. */
    | Highlighted(text: string)
      /** A line after the case-sensitive `replace_all` of the regular
          expression, whose output text is not part of this model. */
    | RegexMarked(line: string)

  /** One line of standard output: the `"{files}: "` prefix (or nothing),
      then the body. */
  datatype Printed = Printed(prefix: string, body: Body)

  /** The `Result` of `read_file_and_print_matches`: an error exactly when
      the file cannot be read. */
  datatype Status = Success | ReadError

  /** One item of the directory walk: an error the walk reports, or a path,
      whether it is a regular file, and the text `fs::read_to_string` would
      return for it (`None` when reading fails). */
  datatype WalkEntry = WalkError | Visited(path: string, isFile: bool, contents: Option<string>)

  /** `print!("{}: ", arg.files)` when `recursive`, nothing otherwise. */
  function Prefix(arg: Argument): string
  {
    if arg.recursive then arg.files + ": " else ""
  }

  /** The lines the flags select. */
  function Selected(arg: Argument, contents: string): seq<string>
    requires LiteralPattern(arg.pattern)
  {
    LineMatching(arg.pattern, contents, arg.insensitive, arg.word)
  }

  /** What is printed for one selected line after the prefix. */
  function Render(arg: Argument, line: string): Body
  {
    if arg.insensitive then Highlighted(HighlightedText(line, arg.pattern)) else RegexMarked(line)
  }

  /** The printed lines for the selected lines, one each, in order. */
  function Listing(arg: Argument, lines: seq<string>): (r: seq<Printed>)
    ensures |r| == |lines|
  {
    if lines == [] then [] else [Printed(Prefix(arg), Render(arg, lines[0]))] + Listing(arg, lines[1..])
  }

  /** Everything `read_file_and_print_matches` prints: nothing for an
      unreadable file, one count line in count mode, else the listing. */
  function FileOutput(arg: Argument, contents: Option<string>): seq<Printed>
    requires LiteralPattern(arg.pattern)
  {
    match contents
    case None => []
    case Some(text) =>
      if arg.count then [Printed(Prefix(arg), Count(|Selected(arg, text)|))]
      else Listing(arg, Selected(arg, text))
  }

  lemma {:induction false} ListingAppend(arg: Argument, lines: seq<string>, line: string)
    ensures Listing(arg, lines + [line]) == Listing(arg, lines) + [Printed(Prefix(arg), Render(arg, line))]
  {
    if lines != [] {
      assert (lines + [line])[1..] == lines[1..] + [line];
      ListingAppend(arg, lines[1..], line);
    }
  }

  lemma ListingStep(arg: Argument, lines: seq<string>, i: nat)
    requires i < |lines|
    ensures Listing(arg, lines[..i + 1]) == Listing(arg, lines[..i]) + [Printed(Prefix(arg), Render(arg, lines[i]))]
  {
    ListingAppend(arg, lines[..i], lines[i]);
    assert lines[..i + 1] == lines[..i] + [lines[i]];
  }

  /** Each printed line renders the selected line at the same position. */
  lemma {:induction false} ListingAt(arg: Argument, lines: seq<string>)
    ensures forall k :: 0 <= k < |lines| ==> Listing(arg, lines)[k] == Printed(Prefix(arg), Render(arg, lines[k]))
  {
    if lines != [] {
      ListingAt(arg, lines[1..]);
    }
  }

  /** `read_file_and_print_matches`, with `contents` the outcome of
      `fs::read_to_string(arg.files)`. */
  method ReadFileAndPrintMatches(arg: Argument, contents: Option<string>) returns (status: Status, printed: seq<Printed>)
    requires LiteralPattern(arg.pattern)
    ensures status == ReadError <==> contents.None?
    ensures printed == FileOutput(arg, contents)
  {
    if contents.None? {
      return ReadError, [];
    }
    var text := contents.value;
    if arg.count {
      var prefix := if arg.recursive then arg.files + ": " else "";
      var count := if arg.insensitive then |CaseInsensitiveLineMatching(arg.pattern, text, arg.word)|
                   else |CaseSensitiveLineMatching(arg.pattern, text, arg.word)|;
      return Success, [Printed(prefix, Count(count))];
    }
    var selected := if arg.insensitive then CaseInsensitiveLineMatching(arg.pattern, text, arg.word)
                    else CaseSensitiveLineMatching(arg.pattern, text, arg.word);
    printed := [];
    var i := 0;
    while i < |selected|
      invariant i <= |selected|
      invariant printed == Listing(arg, selected[..i])
    {
      var line := selected[i];
      var prefix := if arg.recursive then arg.files + ": " else "";
      var body;
      if arg.insensitive {
        var result, _ := HighlightLine(line, arg.pattern);
        body := Highlighted(result);
      } else {
        body := RegexMarked(line);
      }
      ListingStep(arg, selected, i);
      printed := printed + [Printed(prefix, body)];
      i := i + 1;
    }
    assert selected[..i] == selected;
    status := Success;
  }

  /** The count printed in count mode is the number of lines the same search
      lists without `-c`. */
  lemma CountIsListingLength(arg: Argument, contents: string)
    requires LiteralPattern(arg.pattern) && arg.count
    ensures FileOutput(arg, Some(contents)) ==
      [Printed(Prefix(arg), Count(|FileOutput(arg.(count := false), Some(contents))|))]
  {
  }

  /** Without `-c`, the output lists the selected lines in order, each
      rendered after the same prefix. */
  lemma ListingFollowsSelection(arg: Argument, contents: string)
    requires LiteralPattern(arg.pattern) && !arg.count
    ensures |FileOutput(arg, Some(contents))| == |Selected(arg, contents)|
    ensures forall k :: 0 <= k < |Selected(arg, contents)| ==>
      FileOutput(arg, Some(contents))[k] == Printed(Prefix(arg), Render(arg, Selected(arg, contents)[k]))
  {
    ListingAt(arg, Selected(arg, contents));
  }

  /** Every printed line carries the path prefix when `recursive` is set,
      and none otherwise. */
  lemma PrefixOnlyWhenRecursive(arg: Argument, contents: Option<string>)
    requires LiteralPattern(arg.pattern)
    ensures forall k :: 0 <= k < |FileOutput(arg, contents)| ==>
      FileOutput(arg, contents)[k].prefix == (if arg.recursive then arg.files + ": " else [])
  {
    if contents.Some? && !arg.count {
      ListingAt(arg, Selected(arg, contents.value));
    }
  }

  /** A file that cannot be read prints nothing. */
  lemma UnreadablePrintsNothing(arg: Argument)
    requires LiteralPattern(arg.pattern)
    ensures FileOutput(arg, None) == []
  {
  }

  /** Entries the walk loop hands to `read_file_and_print_matches`. */
  predicate IsFileEntry(e: WalkEntry)
  {
    e.Visited? && e.isFile
  }

  /** The argument built for one file found by the walk. */
  function FileArgument(arg: Argument, path: string): Argument
  {
    arg.(files := path, recursive := true)
  }

  /** The arguments `read_dir_and_print_matches` builds, in walk order. */
  function Dispatched(arg: Argument, entries: seq<WalkEntry>): seq<Argument>
  {
    if entries == [] then []
    else (if IsFileEntry(entries[0]) then [FileArgument(arg, entries[0].path)] else []) + Dispatched(arg, entries[1..])
  }

  /** Everything `read_dir_and_print_matches` prints: the output of each
      regular file in walk order. */
  function DirOutput(arg: Argument, entries: seq<WalkEntry>): seq<Printed>
    requires LiteralPattern(arg.pattern)
  {
    if entries == [] then []
    else
      (if IsFileEntry(entries[0]) then FileOutput(FileArgument(arg, entries[0].path), entries[0].contents) else [])
      + DirOutput(arg, entries[1..])
  }

  lemma {:induction false} DispatchedAppend(arg: Argument, entries: seq<WalkEntry>, e: WalkEntry)
    ensures Dispatched(arg, entries + [e]) ==
      Dispatched(arg, entries) + (if IsFileEntry(e) then [FileArgument(arg, e.path)] else [])
  {
    if entries != [] {
      assert (entries + [e])[1..] == entries[1..] + [e];
      DispatchedAppend(arg, entries[1..], e);
    }
  }

  /** Output of a walk split in two is the output of each part. */
  lemma {:induction false} DirOutputAppend(arg: Argument, a: seq<WalkEntry>, b: seq<WalkEntry>)
    requires LiteralPattern(arg.pattern)
    ensures DirOutput(arg, a + b) == DirOutput(arg, a) + DirOutput(arg, b)
  {
    if a == [] {
      assert a + b == b;
    } else {
      assert (a + b)[1..] == a[1..] + b;
      DirOutputAppend(arg, a[1..], b);
    }
  }

  /** `read_dir_and_print_matches`, with `entries` the items of the walk
      below `arg.files`. */
  method ReadDirAndPrintMatches(arg: Argument, entries: seq<WalkEntry>)
    returns (status: Status, dispatched: seq<Argument>, printed: seq<Printed>)
    requires LiteralPattern(arg.pattern)
    ensures status == Success
    ensures dispatched == Dispatched(arg, entries)
    ensures printed == DirOutput(arg, entries)
  {
    dispatched, printed := [], [];
    var i := 0;
    while i < |entries|
      invariant i <= |entries|
      invariant dispatched == Dispatched(arg, entries[..i])
      invariant printed == DirOutput(arg, entries[..i])
    {
      var entry := entries[i];
      DispatchedAppend(arg, entries[..i], entry);
      DirOutputAppend(arg, entries[..i], [entry]);
      assert entries[..i + 1] == entries[..i] + [entry];
      assert [entry][1..] == [];
      if entry.Visited? && entry.isFile {
        var newArgument := Argument(arg.pattern, entry.path, arg.insensitive, arg.count, arg.word, true);
        var _, out := ReadFileAndPrintMatches(newArgument, entry.contents);
        dispatched := dispatched + [newArgument];
        printed := printed + out;
      }
      i := i + 1;
    }
    assert entries[..i] == entries;
    status := Success;
  }

  /** The walk loop builds one argument per regular file, in walk order,
      equal to the original one except that `files` is the file's path and
      `recursive` is set; error entries and directories get none. */
  lemma {:induction false} DispatchedArguments(arg: Argument, entries: seq<WalkEntry>)
    ensures |Dispatched(arg, entries)| == |Filter(entries, IsFileEntry)|
    ensures forall k :: 0 <= k < |Dispatched(arg, entries)| ==>
      var a, e := Dispatched(arg, entries)[k], Filter(entries, IsFileEntry)[k];
      a.files == e.path && a.recursive &&
      a.pattern == arg.pattern && a.insensitive == arg.insensitive && a.count == arg.count && a.word == arg.word
  {
    if entries != [] {
      DispatchedArguments(arg, entries[1..]);
      var h := if IsFileEntry(entries[0]) then 1 else 0;
      var d, f := Dispatched(arg, entries), Filter(entries, IsFileEntry);
      var d', f' := Dispatched(arg, entries[1..]), Filter(entries[1..], IsFileEntry);
      assert d == (if IsFileEntry(entries[0]) then [FileArgument(arg, entries[0].path)] else []) + d';
      assert f == (if IsFileEntry(entries[0]) then [entries[0]] else []) + f';
      forall k | h <= k < |d|
        ensures d[k] == d'[k - h] && f[k] == f'[k - h]
      {
      }
    }
  }

  /** Error entries and directories print nothing: the output is that of
      the regular files alone. */
  lemma {:induction false} DirOutputFilesOnly(arg: Argument, entries: seq<WalkEntry>)
    requires LiteralPattern(arg.pattern)
    ensures DirOutput(arg, entries) == DirOutput(arg, Filter(entries, IsFileEntry))
  {
    if entries != [] {
      var e := entries[0];
      DirOutputFilesOnly(arg, entries[1..]);
      var rest := Filter(entries[1..], IsFileEntry);
      if IsFileEntry(e) {
        assert Filter(entries, IsFileEntry) == [e] + rest;
        assert ([e] + rest)[1..] == rest;
        assert DirOutput(arg, [e] + rest) == FileOutput(FileArgument(arg, e.path), e.contents) + DirOutput(arg, rest);
      } else {
        assert Filter(entries, IsFileEntry) == rest;
        assert DirOutput(arg, entries) == DirOutput(arg, entries[1..]);
      }
    }
  }

  /** A file that cannot be read is skipped: the walk prints what it would
      print without that file, and the scan still succeeds. */
  lemma UnreadableFileSkipped(arg: Argument, before: seq<WalkEntry>, path: string, after: seq<WalkEntry>)
    requires LiteralPattern(arg.pattern)
    ensures DirOutput(arg, before + [Visited(path, true, None)] + after) == DirOutput(arg, before + after)
  {
    var bad := Visited(path, true, None);
    DirOutputAppend(arg, before + [bad], after);
    DirOutputAppend(arg, before, [bad]);
    DirOutputAppend(arg, before, after);
    assert [bad][1..] == [];
  }

  /** A directory holding one unreadable file and one readable file prints
      exactly what searching the readable file on its own prints. */
  lemma UnreadableAndReadableScenario(arg: Argument, bad: string, good: string, contents: string)
    requires LiteralPattern(arg.pattern)
    ensures DirOutput(arg, [Visited(bad, true, None), Visited(good, true, Some(contents))]) ==
      FileOutput(FileArgument(arg, good), Some(contents))
  {
    var g := Visited(good, true, Some(contents));
    UnreadableFileSkipped(arg, [], bad, [g]);
    assert [] + [Visited(bad, true, None)] + [g] == [Visited(bad, true, None), g];
    assert [g][1..] == [];
  }

  /** Every line the walk prints is labelled with the path of a regular file
      of the walk. */
  lemma {:induction false} DirOutputLabelled(arg: Argument, entries: seq<WalkEntry>)
    requires LiteralPattern(arg.pattern)
    ensures forall k :: 0 <= k < |DirOutput(arg, entries)| ==>
      exists j :: 0 <= j < |entries| && IsFileEntry(entries[j]) && DirOutput(arg, entries)[k].prefix == entries[j].path + ": "
  {
    if entries != [] {
      DirOutputLabelled(arg, entries[1..]);
      var e := entries[0];
      var first: seq<Printed> := if IsFileEntry(e) then FileOutput(FileArgument(arg, e.path), e.contents) else [];
      var rest := DirOutput(arg, entries[1..]);
      var out := DirOutput(arg, entries);
      assert out == first + rest;
      if IsFileEntry(e) {
        PrefixOnlyWhenRecursive(FileArgument(arg, e.path), e.contents);
      }
      forall k | 0 <= k < |out|
        ensures exists j :: 0 <= j < |entries| && IsFileEntry(entries[j]) && out[k].prefix == entries[j].path + ": "
      {
        if k < |first| {
          assert out[k] == first[k];
          assert IsFileEntry(entries[0]) && out[k].prefix == entries[0].path + ": ";
        } else {
          assert out[k] == rest[k - |first|];
          var j :| 0 <= j < |entries[1..]| && IsFileEntry(entries[1..][j]) && rest[k - |first|].prefix == entries[1..][j].path + ": ";
          assert entries[j + 1] == entries[1..][j];
        }
      }
      assert forall k :: 0 <= k < |DirOutput(arg, entries)| ==>
        exists j :: 0 <= j < |entries| && IsFileEntry(entries[j]) && DirOutput(arg, entries)[k].prefix == entries[j].path + ": ";
    } else {
      assert DirOutput(arg, entries) == [];
    }
  }

  /** A readable regular file. */
  predicate IsReadableFile(e: WalkEntry)
  {
    IsFileEntry(e) && e.contents.Some?
  }

  /** In count mode the walk prints one line per readable regular file, in
      walk order: that file's path, then the number of its own selected
      lines. */
  lemma {:induction false} CountModeOneLinePerFile(arg: Argument, entries: seq<WalkEntry>)
    requires LiteralPattern(arg.pattern) && arg.count
    ensures |DirOutput(arg, entries)| == |Filter(entries, IsReadableFile)|
    ensures forall k :: 0 <= k < |DirOutput(arg, entries)| ==>
      var f := Filter(entries, IsReadableFile)[k];
      DirOutput(arg, entries)[k] == Printed(f.path + ": ", Count(|Selected(FileArgument(arg, f.path), f.contents.value)|))
  {
    if entries != [] {
      CountModeOneLinePerFile(arg, entries[1..]);
      var e := entries[0];
      var rest := DirOutput(arg, entries[1..]);
      var files := Filter(entries[1..], IsReadableFile);
      if IsReadableFile(e) {
        var line := Printed(e.path + ": ", Count(|Selected(FileArgument(arg, e.path), e.contents.value)|));
        assert DirOutput(arg, entries) == [line] + rest;
        assert Filter(entries, IsReadableFile) == [e] + files;
      } else {
        assert DirOutput(arg, entries) == rest;
        assert Filter(entries, IsReadableFile) == files;
      }
    }
  }
}
