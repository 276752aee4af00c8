/**
 * The `.desktop` file parser of `DesktopEntry::new`: one pass over the
 * lines of the already-read file text, an `else if` chain of prefix tests
 * per line, then the construction of the record.
 */
module Desktop {
  import opened Wrappers
  import opened Text

  /** A parsed application descriptor. */
  datatype DesktopEntry = DesktopEntry(
    name: string,
    icon: string,
    comment: string,
    exec: string,
    categories: seq<string>,
    keywords: seq<string>)

  /** The two ways the shown parser rejects a file it could read. */
  datatype ParseError = MissingName | MissingExec

  /** The message of the `io::Error` of kind `Other` that the parser returns. */
  function Message(e: ParseError): string
  {
    match e
    case MissingName => "Missing Name"
    case MissingExec => "Missing Exec"
  }

  const NameKey := "Name="
  const CommentKey := "Comment="
  const ExecKey := "Exec="
  const CategoriesKey := "Categories="
  const KeywordsKey := "Keywords="
  const IconKey := "Icon="

  /** Some key of the `else if` chain starts `line`. */
  predicate HasKey(line: string)
  {
    StartsWith(line, NameKey) || StartsWith(line, CommentKey) || StartsWith(line, ExecKey)
    || StartsWith(line, CategoriesKey) || StartsWith(line, KeywordsKey) || StartsWith(line, IconKey)
  }

  /** The locals of the line loop: the four optional scalars and the two lists. */
  datatype Fields = Fields(
    name: Option<string>,
    icon: Option<string>,
    comment: Option<string>,
    exec: Option<string>,
    categories: seq<string>,
    keywords: seq<string>)

  const Unset := Fields(None, None, None, None, [], [])

  /** The effect of one line: the first key of the chain that starts the line decides. */
  function Step(f: Fields, line: string): Fields
  {
    if StartsWith(line, NameKey) then f.(name := Some(line[|NameKey|..]))
    else if StartsWith(line, CommentKey) then f.(comment := Some(line[|CommentKey|..]))
    else if StartsWith(line, ExecKey) then f.(exec := Some(line[|ExecKey|..]))
    else if StartsWith(line, CategoriesKey) then
      f.(categories := f.categories + NonEmptyPieces(line[|CategoriesKey|..], ';'))
    else if StartsWith(line, KeywordsKey) then
      f.(keywords := f.keywords + NonEmptyPieces(line[|KeywordsKey|..], ';'))
    else if StartsWith(line, IconKey) then f.(icon := Some(line[|IconKey|..]))
    else f
  }

  /** The locals after the loop has seen `lines`, first to last. */
  function Scan(f: Fields, lines: seq<string>): Fields
    decreases |lines|
  {
    if lines == [] then f else Step(Scan(f, lines[..|lines| - 1]), lines[|lines| - 1])
  }

  /** The record construction: `Name` is checked before `Exec`; `Icon` and `Comment` default to "". */
  function Finish(f: Fields): (r: Result<DesktopEntry, ParseError>)
    ensures r == Failure(MissingName) <==> f.name.None?
    ensures r == Failure(MissingExec) <==> f.name.Some? && f.exec.None?
    ensures r.Success? ==> r.value.name == f.name.value && r.value.exec == f.exec.value
  {
    if f.name.None? then Failure(MissingName)
    else if f.exec.None? then Failure(MissingExec)
    else Success(DesktopEntry(f.name.value, f.icon.GetOr(""), f.comment.GetOr(""),
                              f.exec.value, f.categories, f.keywords))
  }

  // ---------------------------------------------------------------------
  // Reference definitions, one per key
  // ---------------------------------------------------------------------

  /** The value after `key` on the last line that starts with `key`. */
  function LastValue(lines: seq<string>, key: string): Option<string>
    decreases |lines|
  {
    if lines == [] then None
    else
      var last := lines[|lines| - 1];
      if StartsWith(last, key) then Some(last[|key|..]) else LastValue(lines[..|lines| - 1], key)
  }

  /** The non-empty `;`-separated items after `key` on `line`, if `line` starts with `key`. */
  function Items(line: string, key: string): seq<string>
  {
    if StartsWith(line, key) then NonEmptyPieces(line[|key|..], ';') else []
  }

  /** The non-empty `;`-separated items of every line that starts with `key`, in line order. */
  function AllItems(lines: seq<string>, key: string): seq<string>
    decreases |lines|
  {
    if lines == [] then [] else AllItems(lines[..|lines| - 1], key) + Items(lines[|lines| - 1], key)
  }

  /** A later value, if any, overrides an earlier one. */
  function Override(earlier: Option<string>, later: Option<string>): Option<string>
  {
    if later.Some? then later else earlier
  }

  /** The result of parsing the text of a `.desktop` file. */
  function ParseText(text: string): (r: Result<DesktopEntry, ParseError>)
    ensures r == Failure(MissingName) <==> LastValue(Lines(text), NameKey).None?
    ensures r == Failure(MissingExec)
        <==> LastValue(Lines(text), NameKey).Some? && LastValue(Lines(text), ExecKey).None?
    ensures r.Success? ==>
      && r.value.name == LastValue(Lines(text), NameKey).value
      && r.value.exec == LastValue(Lines(text), ExecKey).value
      && r.value.icon == LastValue(Lines(text), IconKey).GetOr("")
      && r.value.comment == LastValue(Lines(text), CommentKey).GetOr("")
      && r.value.categories == AllItems(Lines(text), CategoriesKey)
      && r.value.keywords == AllItems(Lines(text), KeywordsKey)
  {
    ScanByKey(Unset, Lines(text));
    Finish(Scan(Unset, Lines(text)))
  }

  // ---------------------------------------------------------------------
  // The parser as the source writes it: a loop over the lines
  // ---------------------------------------------------------------------

  /** The inner loop of a list line: pushes every non-empty `;`-piece of `text`. */
  method PushItems(list: seq<string>, text: string) returns (r: seq<string>)
    ensures r == list + NonEmptyPieces(text, ';')
  {
    var pieces := Split(text, ';');
    r := list;
    for j := 0 to |pieces|
      invariant r == list + DropEmpty(pieces[..j])
    {
      assert pieces[..j + 1][..j] == pieces[..j];
      AppendAssoc(list, DropEmpty(pieces[..j]), if pieces[j] != "" then [pieces[j]] else []);
      if pieces[j] != "" {
        r := r + [pieces[j]];
      }
    }
    assert pieces[..|pieces|] == pieces;
  }

  /** `DesktopEntry::new`, from the point where the file text has been read. */
  method New(buffer: string) returns (r: Result<DesktopEntry, ParseError>)
    ensures r == ParseText(buffer)
  {
    var name: Option<string> := None;
    var icon: Option<string> := None;
    var comment: Option<string> := None;
    var exec: Option<string> := None;
    var categories: seq<string> := [];
    var keywords: seq<string> := [];

    var lines := Lines(buffer);
    for i := 0 to |lines|
      invariant Fields(name, icon, comment, exec, categories, keywords) == Scan(Unset, lines[..i])
    {
      var line := lines[i];
      assert lines[..i + 1][..i] == lines[..i];
      if StartsWith(line, NameKey) {
        name := Some(line[5..]);
      } else if StartsWith(line, CommentKey) {
        comment := Some(line[8..]);
      } else if StartsWith(line, ExecKey) {
        exec := Some(line[5..]);
      } else if StartsWith(line, CategoriesKey) {
        categories := PushItems(categories, line[11..]);
      } else if StartsWith(line, KeywordsKey) {
        keywords := PushItems(keywords, line[9..]);
      } else if StartsWith(line, IconKey) {
        icon := Some(line[5..]);
      }
    }
    assert lines[..|lines|] == lines;

    if name.None? {
      return Failure(MissingName);
    }
    if exec.None? {
      return Failure(MissingExec);
    }
    r := Success(DesktopEntry(name.value, icon.GetOr(""), comment.GetOr(""), exec.value,
                              categories, keywords));
  }

  // ---------------------------------------------------------------------
  // Properties of one line
  // ---------------------------------------------------------------------

  /** A line whose first character differs from the key's does not start with it. */
  lemma FirstCharDiffers(line: string, key: string)
    requires |line| > 0 && |key| > 0 && line[0] != key[0]
    ensures !StartsWith(line, key)
  {
    if |key| <= |line| {
      assert line[..|key|][0] == line[0];
    }
  }

  /** No line starts with two of the six keys, so the order of the chain never hides a key. */
  lemma KeysExclusive(line: string)
    ensures StartsWith(line, NameKey) ==>
      (!StartsWith(line, CommentKey) && !StartsWith(line, ExecKey) && !StartsWith(line, CategoriesKey)
       && !StartsWith(line, KeywordsKey) && !StartsWith(line, IconKey))
    ensures StartsWith(line, CommentKey) ==>
      (!StartsWith(line, ExecKey) && !StartsWith(line, CategoriesKey)
       && !StartsWith(line, KeywordsKey) && !StartsWith(line, IconKey))
    ensures StartsWith(line, ExecKey) ==>
      (!StartsWith(line, CategoriesKey) && !StartsWith(line, KeywordsKey) && !StartsWith(line, IconKey))
    ensures StartsWith(line, CategoriesKey) ==> !StartsWith(line, KeywordsKey) && !StartsWith(line, IconKey)
    ensures StartsWith(line, KeywordsKey) ==> !StartsWith(line, IconKey)
  {
    if StartsWith(line, NameKey) { assert line[0] == 'N'; }
    if StartsWith(line, CommentKey) { assert line[0] == 'C' && line[1] == 'o'; }
    if StartsWith(line, ExecKey) { assert line[0] == 'E'; }
    if StartsWith(line, CategoriesKey) { assert line[0] == 'C' && line[1] == 'a'; }
    if StartsWith(line, KeywordsKey) { assert line[0] == 'K'; }
    if StartsWith(line, IconKey) { assert line[0] == 'I'; }
  }

  /** Each key acts on its own field only, as if it were tested first. */
  lemma StepByKey(f: Fields, line: string)
    ensures Step(f, line).name == if StartsWith(line, NameKey) then Some(line[5..]) else f.name
    ensures Step(f, line).comment == if StartsWith(line, CommentKey) then Some(line[8..]) else f.comment
    ensures Step(f, line).exec == if StartsWith(line, ExecKey) then Some(line[5..]) else f.exec
    ensures Step(f, line).icon == if StartsWith(line, IconKey) then Some(line[5..]) else f.icon
    ensures Step(f, line).categories == f.categories + Items(line, CategoriesKey)
    ensures Step(f, line).keywords == f.keywords + Items(line, KeywordsKey)
  {
    KeysExclusive(line);
  }

  /** A scalar line yields the verbatim, untrimmed rest after its key. */
  lemma ScalarValueVerbatim(f: Fields, v: string)
    ensures Step(f, NameKey + v) == f.(name := Some(v))
    ensures Step(f, CommentKey + v) == f.(comment := Some(v))
    ensures Step(f, ExecKey + v) == f.(exec := Some(v))
    ensures Step(f, IconKey + v) == f.(icon := Some(v))
  {
    StartsWithAppend(NameKey, v);
    StartsWithAppend(CommentKey, v);
    StartsWithAppend(ExecKey, v);
    StartsWithAppend(IconKey, v);
    KeysExclusive(NameKey + v);
    KeysExclusive(CommentKey + v);
    KeysExclusive(ExecKey + v);
    KeysExclusive(IconKey + v);
  }

  /** A line with none of the six keys, a `[Section]` header among them, changes nothing. */
  lemma OtherLineIgnored(f: Fields, line: string)
    requires !HasKey(line)
    ensures Step(f, line) == f
  {
  }

  lemma HeaderHasNoKey(line: string)
    requires |line| > 0 && line[0] == '['
    ensures !HasKey(line)
  {
    FirstCharDiffers(line, NameKey);
    FirstCharDiffers(line, CommentKey);
    FirstCharDiffers(line, ExecKey);
    FirstCharDiffers(line, CategoriesKey);
    FirstCharDiffers(line, KeywordsKey);
    FirstCharDiffers(line, IconKey);
  }

  /**
   * An empty item between two separators is dropped: `Categories=Network;;Internet`
   * yields `["Network", "Internet"]`.
   */
  lemma EmptyItemDropped(f: Fields, a: string, b: string)
    requires a != [] && b != [] && ';' !in a && ';' !in b
    ensures Step(f, CategoriesKey + a + [';', ';'] + b).categories == f.categories + [a, b]
  {
    var value := a + [';'] + ([] + [';'] + b);
    assert CategoriesKey + a + [';', ';'] + b == CategoriesKey + value;
    StartsWithAppend(CategoriesKey, value);
    KeysExclusive(CategoriesKey + value);
    SplitAtSeparator(a, [] + [';'] + b, ';');
    SplitAtSeparator([], b, ';');
    SplitWithoutSeparator(b, ';');
    var pieces := [a, [], b];
    assert Split(value, ';') == pieces;
    assert pieces[..2] == [a, []] && pieces[..2][..1] == [a] && [a][..0] == [];
    assert DropEmpty([a]) == [a];
    assert DropEmpty([a, []]) == [a];
    assert DropEmpty(pieces) == DropEmpty([a, []]) + [b];
  }

  lemma CategoriesExample()
    ensures Step(Unset, "Categories=Network;;Internet").categories == ["Network", "Internet"]
  {
    EmptyItemDropped(Unset, "Network", "Internet");
    assert CategoriesKey + "Network" + [';', ';'] + "Internet" == "Categories=Network;;Internet";
  }

  // ---------------------------------------------------------------------
  // Properties of the whole scan
  // ---------------------------------------------------------------------

  /** Scalars: the last line with the key wins. Lists: every line with the key appends, in order. */
  lemma {:induction false} ScanByKey(f: Fields, lines: seq<string>)
    ensures Scan(f, lines).name == Override(f.name, LastValue(lines, NameKey))
    ensures Scan(f, lines).comment == Override(f.comment, LastValue(lines, CommentKey))
    ensures Scan(f, lines).exec == Override(f.exec, LastValue(lines, ExecKey))
    ensures Scan(f, lines).icon == Override(f.icon, LastValue(lines, IconKey))
    ensures Scan(f, lines).categories == f.categories + AllItems(lines, CategoriesKey)
    ensures Scan(f, lines).keywords == f.keywords + AllItems(lines, KeywordsKey)
    decreases |lines|
  {
    if lines != [] {
      var init := lines[..|lines| - 1];
      var last := lines[|lines| - 1];
      var g := Scan(f, init);
      ScanByKey(f, init);
      StepByKey(g, last);
      AppendAssoc(f.categories, AllItems(init, CategoriesKey), Items(last, CategoriesKey));
      AppendAssoc(f.keywords, AllItems(init, KeywordsKey), Items(last, KeywordsKey));
    }
  }

  /** A scalar value is the one of the last line with its key, whatever came before. */
  lemma {:induction false} LastValueWins(before: seq<string>, line: string, after: seq<string>, key: string)
    requires StartsWith(line, key)
    requires forall k :: 0 <= k < |after| ==> !StartsWith(after[k], key)
    ensures LastValue(before + [line] + after, key) == Some(line[|key|..])
    decreases |after|
  {
    var s := before + [line] + after;
    if after == [] {
      assert s[|s| - 1] == line;
    } else {
      assert s[..|s| - 1] == before + [line] + after[..|after| - 1];
      assert s[|s| - 1] == after[|after| - 1];
      LastValueWins(before, line, after[..|after| - 1], key);
    }
  }

  /** One more line contributes its items after those of the lines before it. */
  lemma AllItemsSnoc(lines: seq<string>, line: string, key: string)
    ensures AllItems(lines + [line], key) == AllItems(lines, key) + Items(line, key)
  {
    assert (lines + [line])[..|lines|] == lines;
  }

  /** Splitting the lines splits the accumulated items (repeated list lines append). */
  lemma {:induction false} AllItemsAppend(a: seq<string>, b: seq<string>, key: string)
    ensures AllItems(a + b, key) == AllItems(a, key) + AllItems(b, key)
    decreases |b|
  {
    if b == [] {
      assert a + b == a;
    } else {
      var init := b[..|b| - 1];
      var last := b[|b| - 1];
      assert b == init + [last];
      AppendAssoc(a, init, [last]);
      AllItemsAppend(a, init, key);
      AllItemsSnoc(a + init, last, key);
      AllItemsSnoc(init, last, key);
      AppendAssoc(AllItems(a, key), AllItems(init, key), Items(last, key));
    }
  }

  /** No accumulated item is ever the empty string. */
  lemma {:induction false} AllItemsNonEmpty(lines: seq<string>, key: string)
    ensures "" !in AllItems(lines, key)
    decreases |lines|
  {
    if lines != [] {
      AllItemsNonEmpty(lines[..|lines| - 1], key);
    }
  }

  /** A parsed record never lists an empty category or keyword. */
  lemma ParsedListsNonEmpty(text: string)
    requires ParseText(text).Success?
    ensures "" !in ParseText(text).value.categories
    ensures "" !in ParseText(text).value.keywords
  {
    AllItemsNonEmpty(Lines(text), CategoriesKey);
    AllItemsNonEmpty(Lines(text), KeywordsKey);
  }
}
