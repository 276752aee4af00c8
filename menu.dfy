/**
 * The menu of the launcher: the command line run when an entry is chosen,
 * the incremental search (ranking, cap of 34 results), the search-text
 * edits of the character hook, and which category entries are visible.
 */
module Menu {
  import opened Text
  import opened Sorting
  import opened Desktop
  import opened Categories

  // ---------------------------------------------------------------------
  // The command line of an entry
  // ---------------------------------------------------------------------

  /**
   * The `replace` chain of the mouse-press hook, applied in this order to
   * the whole command: `%f`, `%F`, `%u`, `%U` are removed, `%i` becomes
   * the icon, `%c` the name, and `%k` is removed.
   */
  function ExpandExec(exec: string, icon: string, name: string): string
  {
    var s := Replace(exec, "%f", "");
    var s := Replace(s, "%F", "");
    var s := Replace(s, "%u", "");
    var s := Replace(s, "%U", "");
    var s := Replace(s, "%i", icon);
    var s := Replace(s, "%c", name);
    Replace(s, "%k", "")
  }

  /** The command handed to `sh -c` when `e` is clicked. */
  function LaunchCommand(e: DesktopEntry): string
  {
    ExpandExec(e.exec, e.icon, e.name)
  }

  /** What the chain makes of one field code, for a command and fields free of `%`. */
  function CodeValue(code: string, icon: string, name: string): string
  {
    if code == "%i" then icon else if code == "%c" then name else ""
  }

  /** The field codes the chain knows. */
  predicate FieldCode(code: string)
  {
    code in {"%f", "%F", "%u", "%U", "%i", "%c", "%k"}
  }

  /** Text without `%` holds no field code. */
  lemma NoPercentNoOccurrence(s: string, pat: string)
    requires pat != [] && pat[0] == '%' && '%' !in s
    ensures !Occurs(s, pat)
  {
    forall i: nat | i <= |s| ensures !OccursAt(s, pat, i) {
      if i + |pat| <= |s| {
        assert s[i..i + |pat|][0] == s[i];
        assert s[i] in s;
      }
    }
  }

  /** A command without `%` runs as written. */
  lemma ExpandWithoutPercent(exec: string, icon: string, name: string)
    requires '%' !in exec
    ensures ExpandExec(exec, icon, name) == exec
  {
    NoPercentNoOccurrence(exec, "%f");
    NoPercentNoOccurrence(exec, "%F");
    NoPercentNoOccurrence(exec, "%u");
    NoPercentNoOccurrence(exec, "%U");
    NoPercentNoOccurrence(exec, "%i");
    NoPercentNoOccurrence(exec, "%c");
    NoPercentNoOccurrence(exec, "%k");
    ReplaceAbsent(exec, "%f", "");
    ReplaceAbsent(exec, "%F", "");
    ReplaceAbsent(exec, "%u", "");
    ReplaceAbsent(exec, "%U", "");
    ReplaceAbsent(exec, "%i", icon);
    ReplaceAbsent(exec, "%c", name);
    ReplaceAbsent(exec, "%k", "");
  }

  /** One replace of the chain on `cmd + rest`, where `cmd` holds no `%`. */
  lemma ReplaceAfterCommand(cmd: string, rest: string, pat: string, rep: string)
    requires |pat| == 2 && pat[0] == '%' && '%' !in cmd
    requires |rest| == 2 || '%' !in rest
    ensures |rest| == 2 ==> Replace(cmd + rest, pat, rep) == cmd + (if rest == pat then rep else rest)
    ensures '%' !in rest ==> Replace(cmd + rest, pat, rep) == cmd + rest
  {
    ReplaceSkipsPrefix(cmd, rest, pat, rep);
    if |rest| == 2 {
      if rest == pat {
        ReplaceWhole(pat, rep);
      } else {
        ReplaceOtherPair(rest, pat, rep);
      }
    }
    if '%' !in rest {
      NoPercentNoOccurrence(rest, pat);
      ReplaceAbsent(rest, pat, rep);
    }
  }

  /** What one replace of the chain makes of the tail `t` of the command. */
  function Track(t: string, pat: string, rep: string): string
  {
    if t == pat then rep else t
  }

  /**
   * A command ending in one field code: the file and URL codes and `%k`
   * vanish, `%i` becomes the icon and `%c` the name.
   */
  lemma ExpandTrailingCode(cmd: string, code: string, icon: string, name: string)
    requires FieldCode(code)
    requires '%' !in cmd && '%' !in icon && '%' !in name
    ensures ExpandExec(cmd + code, icon, name) == cmd + CodeValue(code, icon, name)
  {
    var t1 := Track(code, "%f", "");
    var t2 := Track(t1, "%F", "");
    var t3 := Track(t2, "%u", "");
    var t4 := Track(t3, "%U", "");
    var t5 := Track(t4, "%i", icon);
    var t6 := Track(t5, "%c", name);
    var t7 := Track(t6, "%k", "");
    ReplaceAfterCommand(cmd, code, "%f", "");
    ReplaceAfterCommand(cmd, t1, "%F", "");
    ReplaceAfterCommand(cmd, t2, "%u", "");
    ReplaceAfterCommand(cmd, t3, "%U", "");
    ReplaceAfterCommand(cmd, t4, "%i", icon);
    ReplaceAfterCommand(cmd, t5, "%c", name);
    ReplaceAfterCommand(cmd, t6, "%k", "");
    assert t7 == CodeValue(code, icon, name);
  }

  /**
   * The chain works on the text the previous replace produced: an icon
   * written as `%c` is itself replaced by the name.
   */
  lemma ChainRescansReplacement(name: string)
    requires '%' !in name
    ensures ExpandExec("%i", "%c", name) == name
  {
    ReplaceOtherPair("%i", "%f", "");
    ReplaceOtherPair("%i", "%F", "");
    ReplaceOtherPair("%i", "%u", "");
    ReplaceOtherPair("%i", "%U", "");
    ReplaceWhole("%i", "%c");
    ReplaceWhole("%c", name);
    NoPercentNoOccurrence(name, "%k");
    ReplaceAbsent(name, "%k", "");
  }

  /**
   * `%%` gets no special treatment: in `%%f` the second `%` and the `f`
   * form a file code, which is removed.
   */
  lemma DoublePercentNotEscaped(icon: string, name: string)
    ensures ExpandExec("%%f", icon, name) == "%"
  {
    var s: string := "%%f";
    assert s[..2] != "%f" && s[1..] == "%f";
    ReplaceWhole("%f", "");
    assert Replace(s, "%f", "") == "%";
  }

  // ---------------------------------------------------------------------
  // The search ranking
  // ---------------------------------------------------------------------

  /** `display_search` shows at most this many results. */
  const MaxResults: nat := 34

  function NatLe(a: nat, b: nat): bool
  {
    a <= b
  }

  /**
   * The sort key of `display_search`: the similarity of the entry's name to
   * the query. The similarity function itself is a parameter.
   */
  function ScoreKey(score: (string, string) -> nat, text: string): DesktopEntry -> nat
  {
    (e: DesktopEntry) => score(e.name, text)
  }

  /** `entries.sort_by_key(score)` followed by `into_iter().rev()`. */
  function Ranked(entries: seq<DesktopEntry>, score: (string, string) -> nat, text: string): (r: seq<DesktopEntry>)
    ensures |r| == |entries|
    ensures multiset(r) == multiset(entries)
  {
    var sorted := SortBy(entries, ScoreKey(score, text), NatLe);
    SortByPermutes(entries, ScoreKey(score, text), NatLe);
    ReverseAt(sorted);
    ReverseMultiset(sorted);
    Reverse(sorted)
  }

  /** The results `display_search` lists: the first 34 of the ranking. */
  function TopMatches(entries: seq<DesktopEntry>, score: (string, string) -> nat, text: string): (r: seq<DesktopEntry>)
    ensures |r| == if |entries| <= MaxResults then |entries| else MaxResults
  {
    Take(Ranked(entries, score, text), MaxResults)
  }

  lemma NatLeTotalOrder()
    ensures TotalOrder(NatLe)
  {
  }

  /**
   * The ranking holds every entry exactly as often as `entries` does, by
   * non-increasing score, and entries with equal scores appear in the
   * reverse of their order in `entries`.
   */
  lemma RankedSpec(entries: seq<DesktopEntry>, score: (string, string) -> nat, text: string)
    ensures multiset(Ranked(entries, score, text)) == multiset(entries)
    ensures |Ranked(entries, score, text)| == |entries|
    ensures forall i, j :: 0 <= i < j < |Ranked(entries, score, text)| ==>
      score(Ranked(entries, score, text)[j].name, text) <= score(Ranked(entries, score, text)[i].name, text)
    ensures forall k :: SameKey(Ranked(entries, score, text), ScoreKey(score, text), k)
                     == Reverse(SameKey(entries, ScoreKey(score, text), k))
  {
    var key := ScoreKey(score, text);
    var sorted := SortBy(entries, key, NatLe);
    var r := Ranked(entries, score, text);
    NatLeTotalOrder();
    SortByPermutes(entries, key, NatLe);
    SortBySorted(entries, key, NatLe);
    ReverseAt(sorted);
    ReverseMultiset(sorted);
    forall i, j | 0 <= i < j < |r| ensures score(r[j].name, text) <= score(r[i].name, text) {
      assert r[i] == sorted[|sorted| - 1 - i] && r[j] == sorted[|sorted| - 1 - j];
      assert key(r[j]) <= key(r[i]);
    }
    forall k ensures SameKey(r, key, k) == Reverse(SameKey(entries, key, k)) {
      SameKeyReverse(sorted, key, k);
      SortByStable(entries, key, NatLe, k);
    }
  }

  /**
   * What `display_search` shows: min(34, n) entries, by non-increasing
   * score, each taken from `entries`; no entry left out scores above a
   * shown one; and among equal scores the shown entries are the last ones
   * of `entries`, latest first.
   */
  lemma TopMatchesSpec(entries: seq<DesktopEntry>, score: (string, string) -> nat, text: string)
    ensures |TopMatches(entries, score, text)| == if |entries| <= MaxResults then |entries| else MaxResults
    ensures IsPrefix(TopMatches(entries, score, text), Ranked(entries, score, text))
    ensures multiset(TopMatches(entries, score, text)) <= multiset(entries)
    ensures forall i, j :: 0 <= i < j < |TopMatches(entries, score, text)| ==>
      score(TopMatches(entries, score, text)[j].name, text) <= score(TopMatches(entries, score, text)[i].name, text)
    ensures forall i, j :: 0 <= i < |TopMatches(entries, score, text)| <= j < |Ranked(entries, score, text)| ==>
      score(Ranked(entries, score, text)[j].name, text) <= score(TopMatches(entries, score, text)[i].name, text)
    ensures forall k :: IsPrefix(SameKey(TopMatches(entries, score, text), ScoreKey(score, text), k),
                                 Reverse(SameKey(entries, ScoreKey(score, text), k)))
  {
    var key := ScoreKey(score, text);
    var rk := Ranked(entries, score, text);
    var r := TopMatches(entries, score, text);
    RankedSpec(entries, score, text);
    assert rk == r + rk[|r|..];
    assert multiset(rk) == multiset(r) + multiset(rk[|r|..]);
    forall i, j | 0 <= i < j < |r| ensures score(r[j].name, text) <= score(r[i].name, text) {
      assert r[i] == rk[i] && r[j] == rk[j];
    }
    forall i, j | 0 <= i < |r| <= j < |rk| ensures score(rk[j].name, text) <= score(r[i].name, text) {
      assert r[i] == rk[i];
    }
    forall k ensures IsPrefix(SameKey(r, key, k), Reverse(SameKey(entries, key, k))) {
      SameKeyAppend(r, rk[|r|..], key, k);
    }
  }

  /** Two entries with the same score are listed latest first. */
  lemma TiesLatestFirst(a: DesktopEntry, b: DesktopEntry, score: (string, string) -> nat, text: string)
    requires score(a.name, text) == score(b.name, text)
    ensures TopMatches([a, b], score, text) == [b, a]
  {
    var key := ScoreKey(score, text);
    assert [a, b][1..] == [b];
    assert SortBy([b], key, NatLe) == [b] by {
      assert [b][1..] == [];
    }
    assert SortBy([a, b], key, NatLe) == [a, b];
    assert [a, b][1..] == [b] && [b][1..] == [];
    assert Reverse([b]) == [b];
  }

  // ---------------------------------------------------------------------
  // The search text
  // ---------------------------------------------------------------------

  /** A key event of the character hook. */
  datatype CharInput = Value(c: char) | Backspace

  /** The search text after one key: a character is appended, Backspace drops the last one. */
  function Edit(text: string, ch: CharInput): (r: string)
    ensures ch.Value? ==> r == text + [ch.c]
    ensures ch.Backspace? && text != [] ==> r + [text[|text| - 1]] == text
    ensures ch.Backspace? && text == [] ==> r == []
  {
    match ch
    case Value(c) => text + [c]
    case Backspace => if text == [] then [] else text[..|text| - 1]
  }

  /** The search text after a run of keys, in order. */
  function Replay(text: string, keys: seq<CharInput>): string
    decreases |keys|
  {
    if keys == [] then text else Replay(Edit(text, keys[0]), keys[1..])
  }

  /** The keys that type `s`. */
  function Typing(s: string): (keys: seq<CharInput>)
    ensures |keys| == |s|
    ensures forall i :: 0 <= i < |s| ==> keys[i] == Value(s[i])
  {
    seq(|s|, i requires 0 <= i < |s| => Value(s[i]))
  }

  /** Backspace removes exactly the character just typed. */
  lemma BackspaceUndoes(text: string, c: char)
    ensures Edit(Edit(text, Value(c)), Backspace) == text
  {
    assert (text + [c])[..|text|] == text;
  }

  /** Typing a string appends it to the search text. */
  lemma {:induction false} TypingAppends(text: string, s: string)
    ensures Replay(text, Typing(s)) == text + s
    decreases |s|
  {
    if s != [] {
      assert Typing(s)[1..] == Typing(s[1..]);
      TypingAppends(text + [s[0]], s[1..]);
      assert text + [s[0]] + s[1..] == text + s;
    }
  }

  /** `n` Backspaces drop the last `n` characters, and no more than there are. */
  lemma {:induction false} ErasingDrops(text: string, n: nat)
    ensures Replay(text, seq(n, _ => Backspace)) == if n <= |text| then text[..|text| - n] else []
    decreases n
  {
    if n > 0 {
      var keys := seq(n, _ => Backspace);
      assert keys[1..] == seq(n - 1, _ => Backspace);
      var t := Edit(text, Backspace);
      ErasingDrops(t, n - 1);
      if text != [] {
        assert t == text[..|text| - 1];
        if n <= |text| {
          assert t[..|t| - (n - 1)] == text[..|text| - n];
        }
      }
    }
  }

  // ---------------------------------------------------------------------
  // The menu
  // ---------------------------------------------------------------------

  /**
   * `Menu`: every entry, the entries listed under each category, which of
   * those entry bins are hidden, the search text and the search results.
   */
  class Menu {
    const entries: seq<DesktopEntry>
    const categoryEntries: seq<seq<DesktopEntry>>
    var entryHidden: seq<seq<bool>>
    var searchText: string
    var searchEntries: seq<DesktopEntry>

    /** One hidden flag per entry bin of each category. */
    ghost predicate Valid()
      reads this
    {
      && |entryHidden| == |categoryEntries|
      && forall i :: 0 <= i < |entryHidden| ==> |entryHidden[i]| == |categoryEntries[i]|
    }

    /**
     * The visibility that shows the entries of category `k` and hides all
     * the others; with `k` outside the categories, every entry is hidden.
     */
    function ShownOnly(k: int): (r: seq<seq<bool>>)
      ensures |r| == |categoryEntries|
      ensures forall i :: 0 <= i < |r| ==> |r[i]| == |categoryEntries[i]|
      ensures forall i, j :: 0 <= i < |r| && 0 <= j < |r[i]| ==> (r[i][j] <==> i != k)
    {
      seq(|categoryEntries|, i requires 0 <= i < |categoryEntries| => Flags(|categoryEntries[i]|, i != k))
    }

    /** `Menu::new`: one hidden bin per category entry, an empty search. */
    constructor (categories: seq<Category>, entries: seq<DesktopEntry>)
      ensures this.entries == entries
      ensures |categoryEntries| == |categories|
      ensures forall i :: 0 <= i < |categories| ==> categoryEntries[i] == categories[i].entries
      ensures Valid() && entryHidden == ShownOnly(-1)
      ensures searchText == [] && searchEntries == []
    {
      this.entries := entries;
      var lists: seq<seq<DesktopEntry>> := [];
      for ci := 0 to |categories|
        invariant |lists| == ci
        invariant forall i :: 0 <= i < ci ==> lists[i] == categories[i].entries
      {
        lists := lists + [categories[ci].entries];
      }
      this.categoryEntries := lists;
      new;
      var hidden: seq<seq<bool>> := [];
      for ci := 0 to |categoryEntries|
        invariant hidden == ShownOnly(-1)[..ci]
      {
        hidden := hidden + [Flags(|categoryEntries[ci]|, true)];
      }
      entryHidden := hidden;
      searchText := [];
      searchEntries := [];
    }

    /**
     * `display_search`: ranks a copy of `entries` by score, hides every
     * category entry, and lists the first 34 of the ranking.
     */
    method DisplaySearch(text: string, score: (string, string) -> nat)
      requires Valid()
      modifies this
      ensures Valid() && entryHidden == ShownOnly(-1)
      ensures searchEntries == TopMatches(entries, score, text)
      ensures searchText == old(searchText)
    {
      var sorted := SortBy(entries, ScoreKey(score, text), NatLe);
      for ci := 0 to |categoryEntries|
        invariant |entryHidden| == |categoryEntries|
        invariant entryHidden[..ci] == ShownOnly(-1)[..ci]
        invariant searchText == old(searchText)
      {
        entryHidden := entryHidden[ci := Flags(|categoryEntries[ci]|, true)];
      }
      searchEntries := [];
      ghost var ranked := Reverse(sorted);
      ReverseAt(sorted);
      var i := |sorted|;
      while i > 0
        invariant 0 <= i <= |sorted|
        invariant |searchEntries| == |sorted| - i <= MaxResults
        invariant searchEntries == ranked[..|sorted| - i]
        invariant entryHidden == ShownOnly(-1)
        invariant searchText == old(searchText)
      {
        if |searchEntries| >= MaxResults {
          break;
        }
        i := i - 1;
        assert ranked[..|sorted| - i] == ranked[..|sorted| - i - 1] + [sorted[i]];
        searchEntries := searchEntries + [sorted[i]];
      }
      assert searchEntries == Take(ranked, MaxResults);
    }

    /**
     * The character hook: edits the search text, shows the results for the
     * new text, then stores it.
     */
    method OnCharacter(ch: CharInput, score: (string, string) -> nat)
      requires Valid()
      modifies this
      ensures searchText == Edit(old(searchText), ch)
      ensures searchEntries == TopMatches(entries, score, searchText)
      ensures Valid() && entryHidden == ShownOnly(-1)
    {
      var text := searchText;
      match ch {
        case Value(c) =>
          text := text + [c];
        case Backspace =>
          if text != [] {
            text := text[..|text| - 1];
          }
      }
      DisplaySearch(text, score);
      searchText := text;
    }

    /**
     * `nav_enter_func` on the nav bin of category `k`: clears the search
     * results, shows that category's entries and hides every other's.
     */
    method HoverCategory(k: nat)
      requires Valid() && k < |categoryEntries|
      modifies this
      ensures searchEntries == []
      ensures Valid() && entryHidden == ShownOnly(k)
      ensures searchText == old(searchText)
    {
      searchEntries := [];
      for ci := 0 to |categoryEntries|
        invariant |entryHidden| == |categoryEntries|
        invariant entryHidden[..ci] == ShownOnly(k)[..ci]
        invariant searchText == old(searchText) && searchEntries == []
      {
        entryHidden := entryHidden[ci := Flags(|categoryEntries[ci]|, ci != k)];
      }
    }
  }

  /** `n` copies of `flag`. */
  function Flags(n: nat, flag: bool): (r: seq<bool>)
    ensures |r| == n && forall j :: 0 <= j < n ==> r[j] == flag
  {
    seq(n, _ => flag)
  }
}
