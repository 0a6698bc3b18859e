/** The string operations of Rust's standard library that the search relies
    on: `str::lines`, ASCII lowercasing and `str::find`. */
module Text {
  import opened Wrappers

  /** Index of the first '\n' of `s`, or `|s|` when there is none. */
  function LineEnd(s: string): (e: nat)
    ensures e <= |s|
    ensures forall k :: 0 <= k < e ==> s[k] != '\n'
    ensures e < |s| ==> s[e] == '\n'
  {
    if s == [] || s[0] == '\n' then 0 else 1 + LineEnd(s[1..])
  }

  /** Drops one '\r' ending a line that was terminated by '\n'. */
  function StripCR(l: string): string
  {
    if |l| > 0 && l[|l| - 1] == '\r' then l[..|l| - 1] else l
  }

  /** `str::lines`: the pieces between '\n' characters, each losing a '\r'
      that precedes its '\n'; a final '\n' does not start an empty line, and
      the empty string has no lines. */
  function Lines(s: string): (r: seq<string>)
    ensures forall k :: 0 <= k < |r| ==> '\n' !in r[k]
    ensures |r| <= |s|
    ensures s != [] ==> r != []
  {
    if s == [] then []
    else
      var e := LineEnd(s);
      if e == |s| then [s] else [StripCR(s[..e])] + Lines(s[e + 1..])
  }

  /** Each line followed by a '\n': the text `Lines` reads back. */
  function Unlines(ls: seq<string>): string
  {
    if ls == [] then [] else ls[0] + "\n" + Unlines(ls[1..])
  }

  lemma {:induction false} LineEndAppend(a: string, rest: string)
    requires '\n' !in a
    ensures LineEnd(a + rest) == |a| + LineEnd(rest)
  {
    if a == [] {
      assert a + rest == rest;
    } else {
      assert a[0] in a;
      assert (a + rest)[1..] == a[1..] + rest;
      LineEndAppend(a[1..], rest);
    }
  }

  /** A line followed by '\n' contributes exactly that line, minus a '\r'. */
  lemma LinesCons(a: string, rest: string)
    requires '\n' !in a
    ensures Lines(a + "\n" + rest) == [StripCR(a)] + Lines(rest)
  {
    var s := a + "\n" + rest;
    assert s == a + ("\n" + rest);
    LineEndAppend(a, "\n" + rest);
    assert LineEnd("\n" + rest) == 0;
    assert s[..|a|] == a;
    assert s[|a| + 1..] == rest;
  }

  /** Splitting text with no '\r' and then re-terminating every line gives
      back the text, plus a '\n' when its last line was unterminated. */
  lemma {:induction false} UnlinesLines(s: string)
    requires '\r' !in s
    ensures Unlines(Lines(s)) == if s == [] || s[|s| - 1] == '\n' then s else s + "\n"
  {
    if s != [] {
      var e := LineEnd(s);
      if e == |s| {
        assert Unlines([s]) == s + "\n" + Unlines([]);
        assert '\n' !in s by {
          forall k | 0 <= k < |s| ensures s[k] != '\n' { }
        }
      } else {
        var a, rest := s[..e], s[e + 1..];
        assert s == a + "\n" + rest;
        assert '\r' !in a && '\r' !in rest by {
          forall k | 0 <= k < |a| ensures a[k] != '\r' { assert a[k] == s[k]; }
          forall k | 0 <= k < |rest| ensures rest[k] != '\r' { assert rest[k] == s[e + 1 + k]; }
        }
        if |a| > 0 {
          assert a[|a| - 1] == s[e - 1];
        }
        assert StripCR(a) == a;
        assert Lines(s) == [a] + Lines(rest);
        UnlinesLines(rest);
        assert Unlines([a] + Lines(rest)) == a + "\n" + Unlines(Lines(rest));
        if rest != [] {
          assert s[|s| - 1] == rest[|rest| - 1];
        }
      }
    }
  }

  /** Lines without '\n' and without a trailing '\r', each terminated by '\n',
      split back into the same lines. */
  lemma {:induction false} LinesUnlines(ls: seq<string>)
    requires forall k :: 0 <= k < |ls| ==> '\n' !in ls[k] && StripCR(ls[k]) == ls[k]
    ensures Lines(Unlines(ls)) == ls
  {
    if ls != [] {
      LinesUnlines(ls[1..]);
      LinesCons(ls[0], Unlines(ls[1..]));
    }
  }

  /** Rust's `is_alphanumeric() || c == '_'` restricted to ASCII: the
      characters a regular-expression word boundary separates from the rest. */
  predicate IsWordChar(c: char)
  {
    ('a' <= c <= 'z') || ('A' <= c <= 'Z') || ('0' <= c <= '9') || c == '_'
  }

  /** ASCII lowercasing (`char::to_ascii_lowercase`). */
  function ToLower(c: char): char
  {
    if 'A' <= c <= 'Z' then (c as int + 32) as char else c
  }

  /** `str::to_lowercase` on ASCII text: same length, each character lowered. */
  function Lower(s: string): string
  {
    seq(|s|, i requires 0 <= i < |s| => ToLower(s[i]))
  }

  /** `q` occurs in `s` starting at position `i`. */
  predicate OccursAt(s: string, q: string, i: nat)
  {
    i + |q| <= |s| && s[i..i + |q|] == q
  }

  /** `s[start..].find(q)`, shifted back to an index of `s`: the first
      occurrence of `q` at or after `start`. */
  function FindFrom(s: string, q: string, start: nat): (r: Option<nat>)
    requires start <= |s|
    ensures r.Some? ==> start <= r.value && OccursAt(s, q, r.value)
    ensures r.Some? ==> forall j :: start <= j < r.value ==> !OccursAt(s, q, j)
    ensures r.None? ==> forall j :: start <= j ==> !OccursAt(s, q, j)
    decreases |s| - start
  {
    if start + |q| > |s| then None
    else if OccursAt(s, q, start) then Some(start)
    else if start == |s| then None
    else FindFrom(s, q, start + 1)
  }
}
