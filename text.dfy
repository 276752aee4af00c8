/**
 * The string operations of the Rust standard library that the launcher
 * relies on: `to_lowercase`, `starts_with`, `lines`, `split`, `replace`,
 * and the ordering of `String` values.
 */
module Text {

  /** Lower-casing of one character, restricted to ASCII letters. */
  function LowerChar(c: char): char
  {
    if 'A' <= c <= 'Z' then (c as int - 'A' as int + 'a' as int) as char else c
  }

  /** `str::to_lowercase`, restricted to ASCII letters. */
  function Lower(s: string): string
  {
    seq(|s|, i requires 0 <= i < |s| => LowerChar(s[i]))
  }

  /** `str::starts_with` with a string pattern. */
  predicate StartsWith(s: string, prefix: string)
  {
    |prefix| <= |s| && s[..|prefix|] == prefix
  }

  lemma StartsWithAppend(prefix: string, rest: string)
    ensures StartsWith(prefix + rest, prefix)
    ensures (prefix + rest)[|prefix|..] == rest
  {
  }

  /** Concatenation is associative. */
  lemma AppendAssoc<T>(a: seq<T>, b: seq<T>, c: seq<T>)
    ensures (a + b) + c == a + (b + c)
  {
  }

  // ---------------------------------------------------------------------
  // Searching for a character
  // ---------------------------------------------------------------------

  /** The index of the first `c` in `s`, or `|s|` when there is none. */
  function IndexOf(s: string, c: char): (i: nat)
    ensures i <= |s|
    ensures i < |s| ==> s[i] == c
    ensures forall j :: 0 <= j < i ==> s[j] != c
    decreases |s|
  {
    if s == [] then 0
    else if s[0] == c then 0
    else 1 + IndexOf(s[1..], c)
  }

  // ---------------------------------------------------------------------
  // str::lines
  // ---------------------------------------------------------------------

  /** Drops one final carriage return. */
  function StripCR(line: string): string
  {
    if |line| > 0 && line[|line| - 1] == '\r' then line[..|line| - 1] else line
  }

  /**
   * `str::lines`: the text is cut after every `'\n'`; a line so terminated
   * loses its `"\n"` or `"\r\n"`; a final line without a terminator is kept
   * as it is; a terminator at the very end makes no empty last line.
   */
  function Lines(s: string): seq<string>
    decreases |s|
  {
    if s == [] then []
    else
      var i := IndexOf(s, '\n');
      if i == |s| then [s] else [StripCR(s[..i])] + Lines(s[i + 1..])
  }

  /** No line produced by `Lines` holds a line feed, and only empty text has no lines. */
  lemma {:induction false} LinesHaveNoNewline(s: string)
    ensures Lines(s) == [] <==> s == []
    ensures forall k :: 0 <= k < |Lines(s)| ==> '\n' !in Lines(s)[k]
    decreases |s|
  {
    if s != [] {
      var i := IndexOf(s, '\n');
      if i < |s| {
        LinesHaveNoNewline(s[i + 1..]);
        var first := StripCR(s[..i]);
        assert '\n' !in first by {
          forall j | 0 <= j < |first| ensures first[j] != '\n' {
            assert first[j] == s[j];
          }
        }
        assert Lines(s) == [first] + Lines(s[i + 1..]);
        forall k | 0 <= k < |Lines(s)| ensures '\n' !in Lines(s)[k] {
          if k > 0 {
            assert Lines(s)[k] == Lines(s[i + 1..])[k - 1];
          }
        }
      }
    }
  }

  /** A non-empty text without a line feed is one line, kept as it is, a final `'\r'` included. */
  lemma LinesLast(s: string)
    requires s != [] && '\n' !in s
    ensures Lines(s) == [s]
  {
  }

  /**
   * The terminator of the last line is optional: adding `"\n"` to a text
   * whose last line is non-empty and does not end in `'\r'` gives the same lines.
   */
  lemma {:induction false} LinesTerminatorOptional(s: string)
    requires s != [] && s[|s| - 1] != '\n' && s[|s| - 1] != '\r'
    ensures Lines(s + "\n") == Lines(s)
    decreases |s|
  {
    var t := s + "\n";
    var i := IndexOf(s, '\n');
    assert t[i] == '\n';
    forall j | 0 <= j < i ensures t[j] != '\n' {
      assert t[j] == s[j];
    }
    assert IndexOf(t, '\n') == i;
    if i == |s| {
      assert t[..i] == s;
      assert t[i + 1..] == [];
    } else {
      assert i < |s| - 1;
      var rest := s[i + 1..];
      assert t[..i] == s[..i];
      assert t[i + 1..] == rest + "\n";
      assert rest[|rest| - 1] == s[|s| - 1];
      LinesTerminatorOptional(rest);
    }
  }

  /** A line ending in `"\n"` or `"\r\n"` becomes the first of the lines. */
  lemma {:induction false} LinesCons(line: string, rest: string, crlf: bool)
    requires '\n' !in line
    requires |line| == 0 || line[|line| - 1] != '\r'
    ensures Lines(line + (if crlf then "\r\n" else "\n") + rest) == [line] + Lines(rest)
  {
    var term := if crlf then "\r\n" else "\n";
    var s := line + term + rest;
    var n := |line| + |term| - 1;
    assert s[n] == '\n';
    forall j | 0 <= j < n ensures s[j] != '\n' {
      if j < |line| {
        assert s[j] == line[j];
      } else {
        assert s[j] == '\r';
      }
    }
    assert IndexOf(s, '\n') == n;
    assert s[..n] == if crlf then line + "\r" else line;
    assert StripCR(s[..n]) == line;
    assert s[n + 1..] == rest;
  }

  // ---------------------------------------------------------------------
  // str::split with a one-character pattern
  // ---------------------------------------------------------------------

  /**
   * `str::split(sep)`: the pieces between separators, in order, including
   * the empty ones; the empty string splits into one empty piece.
   */
  function Split(s: string, sep: char): (parts: seq<string>)
    ensures |parts| >= 1
    decreases |s|
  {
    if s == [] then [""]
    else
      var rest := Split(s[1..], sep);
      if s[0] == sep then [""] + rest
      else [[s[0]] + rest[0]] + rest[1..]
  }

  /** `join(sep)`: the pieces with one separator between neighbours. */
  function Join(parts: seq<string>, sep: char): string
    requires |parts| >= 1
    decreases |parts|
  {
    if |parts| == 1 then parts[0] else parts[0] + [sep] + Join(parts[1..], sep)
  }

  /** Splitting loses nothing: joining the pieces gives the text back. */
  lemma {:induction false} JoinSplit(s: string, sep: char)
    ensures Join(Split(s, sep), sep) == s
    decreases |s|
  {
    if s != [] {
      JoinSplit(s[1..], sep);
      var rest := Split(s[1..], sep);
      if s[0] == sep {
        assert Split(s, sep) == [""] + rest;
        assert ([""] + rest)[1..] == rest;
      } else {
        var parts := Split(s, sep);
        assert parts == [[s[0]] + rest[0]] + rest[1..];
        if |rest| == 1 {
          assert parts == [[s[0]] + rest[0]];
        } else {
          assert parts[1..] == rest[1..];
          assert Join(rest, sep) == rest[0] + [sep] + Join(rest[1..], sep);
        }
      }
    }
  }

  /** No piece of a split holds the separator. */
  lemma {:induction false} SplitPiecesLackSeparator(s: string, sep: char)
    ensures forall k :: 0 <= k < |Split(s, sep)| ==> sep !in Split(s, sep)[k]
    decreases |s|
  {
    if s != [] {
      SplitPiecesLackSeparator(s[1..], sep);
      var rest := Split(s[1..], sep);
      if s[0] != sep {
        assert sep !in [s[0]] + rest[0];
      }
    }
  }

  /** Text before the first separator is the first piece. */
  lemma {:induction false} SplitAtSeparator(a: string, b: string, sep: char)
    requires sep !in a
    ensures Split(a + [sep] + b, sep) == [a] + Split(b, sep)
    decreases |a|
  {
    if a == [] {
      assert a + [sep] + b == [sep] + b;
      assert ([sep] + b)[1..] == b;
    } else {
      assert (a + [sep] + b)[1..] == a[1..] + [sep] + b;
      SplitAtSeparator(a[1..], b, sep);
      assert a == [a[0]] + a[1..];
    }
  }

  /** Text without the separator is one piece. */
  lemma {:induction false} SplitWithoutSeparator(s: string, sep: char)
    requires sep !in s
    ensures Split(s, sep) == [s]
    decreases |s|
  {
    if s != [] {
      SplitWithoutSeparator(s[1..], sep);
      assert s == [s[0]] + s[1..];
    }
  }

  /** Keeps the non-empty pieces, in order (`if !piece.is_empty() { push }`). */
  function DropEmpty(parts: seq<string>): (r: seq<string>)
    ensures forall k :: 0 <= k < |r| ==> r[k] != ""
    decreases |parts|
  {
    if parts == [] then []
    else
      var last := parts[|parts| - 1];
      DropEmpty(parts[..|parts| - 1]) + (if last != "" then [last] else [])
  }

  /** A piece is kept exactly when it is among the pieces and is not empty. */
  lemma {:induction false} DropEmptyMembers(parts: seq<string>)
    ensures forall p :: p in DropEmpty(parts) <==> p in parts && p != ""
    decreases |parts|
  {
    if parts != [] {
      DropEmptyMembers(parts[..|parts| - 1]);
      assert parts == parts[..|parts| - 1] + [parts[|parts| - 1]];
    }
  }

  /** The non-empty pieces of `s` split on `sep`. */
  function NonEmptyPieces(s: string, sep: char): seq<string>
  {
    DropEmpty(Split(s, sep))
  }

  /**
   * Each piece is kept or dropped on its own, and the kept ones stay in
   * order: filtering two runs of pieces is filtering each and concatenating.
   */
  lemma {:induction false} DropEmptyAppend(a: seq<string>, b: seq<string>)
    ensures DropEmpty(a + b) == DropEmpty(a) + DropEmpty(b)
    decreases |b|
  {
    if b != [] {
      var last := b[|b| - 1];
      assert (a + b)[..|a + b| - 1] == a + b[..|b| - 1];
      DropEmptyAppend(a, b[..|b| - 1]);
    } else {
      assert a + b == a;
    }
  }

  // ---------------------------------------------------------------------
  // str::replace
  // ---------------------------------------------------------------------

  /** `pat` occurs in `s` at index `i`. */
  predicate OccursAt(s: string, pat: string, i: nat)
  {
    i + |pat| <= |s| && s[i..i + |pat|] == pat
  }

  predicate Occurs(s: string, pat: string)
  {
    exists i: nat :: i <= |s| && OccursAt(s, pat, i)
  }

  /**
   * `str::replace(pat, rep)`: scans left to right and replaces every
   * non-overlapping occurrence of `pat` by `rep`; the inserted text is not
   * scanned again.
   */
  function Replace(s: string, pat: string, rep: string): string
    requires pat != []
    decreases |s|
  {
    if |s| < |pat| then s
    else if s[..|pat|] == pat then rep + Replace(s[|pat|..], pat, rep)
    else [s[0]] + Replace(s[1..], pat, rep)
  }

  lemma OccursInTail(s: string, pat: string, i: nat)
    requires |s| > 0 && OccursAt(s[1..], pat, i)
    ensures OccursAt(s, pat, i + 1)
  {
    assert s[1..][i..i + |pat|] == s[i + 1..i + 1 + |pat|];
  }

  /** Text without the pattern is left as it is. */
  lemma {:induction false} ReplaceAbsent(s: string, pat: string, rep: string)
    requires pat != []
    requires !Occurs(s, pat)
    ensures Replace(s, pat, rep) == s
    decreases |s|
  {
    if |s| >= |pat| {
      assert !OccursAt(s, pat, 0);
      assert s[0..|pat|] == s[..|pat|];
      forall i: nat | i <= |s[1..]| && OccursAt(s[1..], pat, i) ensures false {
        OccursInTail(s, pat, i);
      }
      ReplaceAbsent(s[1..], pat, rep);
    }
  }

  /** Removing a pattern never lengthens the text. */
  lemma {:induction false} RemoveNotLonger(s: string, pat: string)
    requires pat != []
    ensures |Replace(s, pat, "")| <= |s|
    decreases |s|
  {
    if |s| >= |pat| {
      if s[..|pat|] == pat {
        RemoveNotLonger(s[|pat|..], pat);
      } else {
        RemoveNotLonger(s[1..], pat);
      }
    }
  }

  /** Removing a pattern shortens the text exactly when the pattern occurs. */
  lemma {:induction false} RemoveChanges(s: string, pat: string)
    requires pat != []
    ensures Replace(s, pat, "") == s <==> !Occurs(s, pat)
    decreases |s|
  {
    if !Occurs(s, pat) {
      ReplaceAbsent(s, pat, "");
    } else {
      var i: nat :| i <= |s| && OccursAt(s, pat, i);
      if s[..|pat|] == pat {
        RemoveNotLonger(s[|pat|..], pat);
      } else {
        assert i > 0 by {
          assert s[0..|pat|] == s[..|pat|];
        }
        assert OccursAt(s[1..], pat, i - 1) by {
          assert s[1..][i - 1..i - 1 + |pat|] == s[i..i + |pat|];
        }
        RemoveChanges(s[1..], pat);
      }
    }
  }

  /** A prefix that cannot start the pattern passes through a replace untouched. */
  lemma {:induction false} ReplaceSkipsPrefix(a: string, b: string, pat: string, rep: string)
    requires pat != []
    requires pat[0] !in a
    ensures Replace(a + b, pat, rep) == a + Replace(b, pat, rep)
    decreases |a|
  {
    if a != [] {
      var s := a + b;
      assert s[1..] == a[1..] + b;
      if |s| >= |pat| {
        assert s[..|pat|][0] == a[0] != pat[0];
        assert Replace(s, pat, rep) == [a[0]] + Replace(a[1..] + b, pat, rep);
        ReplaceSkipsPrefix(a[1..], b, pat, rep);
        assert a == [a[0]] + a[1..];
      } else {
        assert Replace(b, pat, rep) == b;
      }
    } else {
      assert a + b == b;
    }
  }

  /** A text that is exactly the pattern becomes the replacement. */
  lemma ReplaceWhole(pat: string, rep: string)
    requires pat != []
    ensures Replace(pat, pat, rep) == rep
  {
    assert pat[|pat|..] == [];
  }

  /** A two-character text other than the pattern is left as it is. */
  lemma ReplaceOtherPair(s: string, pat: string, rep: string)
    requires |s| == 2 && |pat| == 2 && s != pat
    ensures Replace(s, pat, rep) == s
  {
    assert s[..2] == s;
  }

  // ---------------------------------------------------------------------
  // The ordering of String values
  // ---------------------------------------------------------------------

  /**
   * `a <= b` for Rust `String`s: lexicographic by character (byte-wise
   * comparison of UTF-8 orders text the same way as code points do).
   */
  predicate LexLe(a: string, b: string)
    decreases |a|
  {
    a == [] || (b != [] && (a[0] < b[0] || (a[0] == b[0] && LexLe(a[1..], b[1..]))))
  }

  lemma {:induction false} LexLeTotal(a: string, b: string)
    ensures LexLe(a, b) || LexLe(b, a)
    decreases |a|
  {
    if a != [] && b != [] && a[0] == b[0] {
      LexLeTotal(a[1..], b[1..]);
    }
  }

  lemma {:induction false} LexLeAntisymmetric(a: string, b: string)
    requires LexLe(a, b) && LexLe(b, a)
    ensures a == b
    decreases |a|
  {
    if a != [] {
      LexLeAntisymmetric(a[1..], b[1..]);
      assert a == [a[0]] + a[1..] && b == [b[0]] + b[1..];
    }
  }

  lemma {:induction false} LexLeTransitive(a: string, b: string, c: string)
    requires LexLe(a, b) && LexLe(b, c)
    ensures LexLe(a, c)
    decreases |a|
  {
    if a != [] && a[0] == b[0] && b[0] == c[0] {
      LexLeTransitive(a[1..], b[1..], c[1..]);
    }
  }
}
