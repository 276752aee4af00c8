# A verified model of the pyroxene application launcher

pyroxene is a small application launcher. At start-up it:

- collects every regular file of `/usr/share/applications/` and `~/.local/share/applications/`, with no test of the file name or extension;
- parses each of them as a desktop entry and keeps the ones that parse. A file that cannot be read as text fails with its I/O error. A file without a `Name=` line, as most files that are not desktop entries are, fails with `Missing Name`, and one with a `Name=` line but no `Exec=` line fails with `Missing Exec`. These failures are logged. A file that has both lines is kept, whatever else it holds;
- files them into eleven fixed categories;
- shows a menu with a browse view per category and a search box.

While the user types, it ranks all entries by how similar their names are to the search text and lists the best 34. Clicking an entry runs its `Exec` command after the field codes are expanded.

This project models that core in Dafny and proves its properties:

- `wrappers.dfy` (`Wrappers`): `Option` and `Result`.
- `text.dfy` (`Text`): the Rust string operations the code relies on, with lemmas. These are `str::lines`, `split(";")`, `str::replace`, `starts_with`, ASCII lower-casing and the lexicographic order of `String`. `Text.Lines` follows the current Rust standard library: a line ended by `\n` or `\r\n` loses its terminator, and an unterminated last line is kept as it is, a trailing `\r` included. Older releases of the standard library also stripped that last `\r`.
- `sorting.dfy` (`Sorting`): `sort_by_key` as a stable insertion sort by key under a total order. It is proved to be a permutation, to be sorted and to be stable, together with reversal and truncation.
- `desktop.dfy` (`Desktop`): the line parser of `DesktopEntry::new`. `ParseText` is its reference function. `New` is the parser written as the source writes it: a loop over the lines with an `else if` chain and inner loops over the `;` pieces. `New` is proved equal to `ParseText`.
- `category.dfy` (`Categories`): the `Category` class with its constructor and `add_entries`.
- `launcher.dfy` (`Launcher`): what `main` does after the files are read:
  - the load outcome of each file and the `filter_map` classification;
  - the 11-row catalog;
  - the `add_entries` loop over the category objects;
  - `retain`.
- `menu.dfy` (`Menu`):
  - the `Exec` expansion chain;
  - the ranking and the cap of 34;
  - the search-text edit of the character hook;
  - the `Menu` class holding the hidden flag of each category entry bin, the search text and the search results, with `display_search`, the character hook and the category-hover hook as methods.

The similarity score is a parameter `score: (string, string) -> nat`. It stands for the Jaro–Winkler similarity scaled to `u64` and floored. All ordering facts are proved for every such function.

### Where the code and its documented intent disagree

The model follows the code in each case:

- **Repeated keys.** The documented intent is that the first occurrence of a repeated key wins. In the code (`src/desktop.rs:30-35, 48-49`) every matching line overwrites the earlier value, so the last one wins. See `Desktop.LastValueWins`.
- **Sections and filtering keys.** The documented intent includes sections, `[` header errors, and the `Type`, `Hidden`, `OnlyShowIn` and `NotShowIn` rules. The shown parser has none of these. A header line is an ordinary line that matches no key (`Desktop.HeaderHasNoKey`). The four silent rejections of `src/main.rs:95-98` are kept in `Launcher.LoadError`. The shown parser never produces them.
- **Empty search text.** The documented intent is that an empty search text falls back to the category view. In the code, Backspace on the last character still calls `display_search` with `""`, which ranks and lists up to 34 entries. See `Menu.Menu.OnCharacter`.
- **Tied scores.** The documented intent is that tied scores keep their original order. The code sorts ascending with a stable sort and then walks the result backwards (`src/menu.rs:309-312, 332`), so ties come out latest first. See `Menu.RankedSpec` and `Menu.TiesLatestFirst`.
- **`%i` expansion.** `src/menu.rs:74` reads the icon as an `Option`, but the shown `DesktopEntry` has a plain `String` icon that defaults to `""`. `%i` therefore becomes that string.

## Model

| member | source | states |
|---|---|---|
| Desktop.Step | src/desktop.rs:30-50 | One pass of the loop body on one line. Its properties are stated by `Desktop.StepByKey`, `Desktop.KeysExclusive`, `Desktop.ScalarValueVerbatim` and `Desktop.OtherLineIgnored`. |
| Desktop.Scan | src/desktop.rs:29-51 | The loop over all lines. `Desktop.ScanByKey` and `Desktop.LastValueWins` state what it leaves in each field. |
| Desktop.Finish | src/desktop.rs:53-60 | A missing name gives `MissingName`, whether or not `exec` is set. A set name with a missing `exec` gives `MissingExec`. Otherwise the entry carries the collected name and `exec`. |
| Desktop.ParseText | src/desktop.rs:22-60 | No `Name=` line gives `MissingName`, whether or not there is an `Exec=` line. A `Name=` line without an `Exec=` line gives `MissingExec`. Otherwise `name`, `exec`, `icon` and `comment` are the values of the last line with their key, with `icon`/`comment` defaulting to `""`. `categories`/`keywords` are the non-empty `;` items of all their lines, in line order. |
| Desktop.New | src/desktop.rs:22-60 | The line loop with its `else if` chain and inner split loops computes exactly `ParseText` of the text. |
| Desktop.PushItems | src/desktop.rs:36-47 | The inner loop of a list line appends exactly the non-empty `;` pieces of the value, in order. |
| Desktop.KeysExclusive | src/desktop.rs:30-48 | No line starts with two of the six keys, so the order of the `else if` chain never decides between keys. |
| Desktop.StepByKey | src/desktop.rs:29-51 | One line changes only the field of its key: a scalar becomes the remainder after the prefix, a list gains its non-empty items, and all other fields stay as they were. |
| Desktop.ScalarValueVerbatim | src/desktop.rs:30-49 | `Name=v`, `Comment=v`, `Exec=v` and `Icon=v` set the field to exactly `v`, untrimmed, whatever it held before. |
| Desktop.OtherLineIgnored | src/desktop.rs:29-51 | A line that starts with none of the six keys leaves every field unchanged. |
| Desktop.HeaderHasNoKey | src/desktop.rs:29-51 | A `[...]` section header starts with no key, so sections are ignored. |
| Desktop.EmptyItemDropped | src/desktop.rs:36-41 | `Categories=a;;b` appends exactly `[a, b]` to the categories: the empty piece is dropped. |
| Desktop.CategoriesExample | src/desktop.rs:36-41 | `Categories=Network;;Internet` yields `["Network", "Internet"]`. |
| Desktop.ScanByKey | src/desktop.rs:29-51 | After the loop over any lines, each scalar holds the last value of its key and each list is its starting value followed by the items of every line of its key, in line order. |
| Desktop.LastValueWins | src/desktop.rs:30-49 | When a line with a key is followed by no other line with that key, its value is the one kept. |
| Desktop.AllItemsAppend | src/desktop.rs:36-47 | Repeated `Categories=`/`Keywords=` lines accumulate: the items of two runs of lines are the items of the first followed by those of the second. |
| Desktop.AllItemsNonEmpty | src/desktop.rs:38-45 | The empty string is never among the collected items. |
| Desktop.ParsedListsNonEmpty | src/desktop.rs:36-59 | No element of a parsed entry's `categories` or `keywords` is the empty string. |
| Text.Lines | src/desktop.rs:29 | `str::lines` as described above. `Text.LinesHaveNoNewline`, `Text.LinesCons`, `Text.LinesLast` and `Text.LinesTerminatorOptional` state its properties. |
| Text.LinesLast | src/desktop.rs:29 | A non-empty text without a line feed is one line, kept exactly as it is, a final `\r` included. |
| Text.LinesTerminatorOptional | src/desktop.rs:29 | The last line's terminator is optional: a text whose last line is non-empty and does not end in `\r` has the same lines with or without a final `\n`. |
| Text.LinesHaveNoNewline | src/desktop.rs:29 | The lines of a text never hold a line feed, and only the empty text has no lines. |
| Text.LinesCons | src/desktop.rs:29 | A line that holds no line feed and does not end in a carriage return, followed by `\n` or `\r\n`, comes out as one line without its terminator, followed by the lines of the rest. |
| Text.DropEmpty | src/desktop.rs:37-41 | None of the kept pieces is empty. |
| Text.DropEmptyAppend | src/desktop.rs:37-41 | Each piece is kept or dropped on its own and the kept ones stay in order: the kept pieces of two runs are those of the first followed by those of the second. |
| Text.DropEmptyMembers | src/desktop.rs:37-41 | A piece is kept exactly when it is one of the pieces and is not empty. |
| Text.Split | src/desktop.rs:37-43 | A split always has at least one piece, and it keeps empty pieces. `Text.JoinSplit`, `Text.SplitPiecesLackSeparator`, `Text.SplitAtSeparator` and `Text.SplitWithoutSeparator` state the rest. |
| Text.JoinSplit | src/desktop.rs:37-43 | Splitting on `;` loses nothing: joining the pieces with `;` gives back the text. |
| Text.SplitPiecesLackSeparator | src/desktop.rs:37-43 | No piece of a split holds the separator. |
| Text.SplitAtSeparator | src/desktop.rs:37-43 | `a;b` with no `;` in `a` splits into `a` followed by the pieces of `b`. |
| Categories.Category.constructor | src/category.rs:13-20 | A new category has the given `iden`, `name` and `icon` and no entries. |
| Categories.Category.AddEntries | src/category.rs:22-30 | `iden`, `name` and `icon` do not change. `entries` becomes the sort by lower-cased name of the old entries followed by the entries of `es` that belong, in `es` order. |
| Categories.Matching | src/category.rs:23-28 | The selected entries are at most as many as the given ones. `Categories.MatchingSelects` states that an entry is selected exactly when it belongs to the category, as often as it occurs. |
| Categories.SortByName | src/category.rs:29 | `sort_by_key` on the lower-cased name. `Categories.SortByNameSpec` states that it is a stable permutation ordered by lower-cased name. |
| Categories.MatchingSelects | src/category.rs:23-27 | An entry is appended exactly when one of its categories equals the identifier after lower-casing both, as often as it occurs in `es`. A non-matching entry is never added. |
| Categories.SortByNameSpec | src/category.rs:29 | The sort is a permutation, orders by lower-cased name, and keeps entries with equal lower-cased names in their previous order. |
| Categories.AddedEntries | src/category.rs:22-30 | After `add_entries` the entries are a permutation of the old entries plus the matching ones. Each of them is an old entry or a matching entry of `es`, and every matching entry of `es` is present. |
| Categories.CaseInsensitiveOrder | src/category.rs:29 | `Zeta` and `alpha` are listed `alpha` first, because the comparison is on lower-cased names. |
| Sorting.SortByPermutes | src/category.rs:29 | `sort_by_key` keeps every element exactly as often as before. |
| Sorting.SortBySorted | src/category.rs:29 | Under a total order on keys, the keys of the sorted list never decrease. |
| Sorting.SortByStable | src/category.rs:29 | For each key, the elements with that key keep their relative order. |
| Launcher.Load | src/main.rs:91-98 | An I/O error or a parse error becomes a non-silent failure with its message. A readable file succeeds exactly when its text parses, with the parsed entry. |
| Launcher.Catalog | src/main.rs:43-55 | Eleven categories, in order from `utility` to `system`. |
| Launcher.CatalogDistinct | src/main.rs:43-55 | No two catalog categories share an identifier. |
| Launcher.CatalogLowerCase | src/main.rs:43-55 | Every catalog identifier is already lower case. |
| Launcher.Collected | src/main.rs:88-109 | The `filter_map` keeps no more entries than there are files. `Launcher.CollectedSelects` and `Launcher.CollectedAppend` state which ones and in what order. |
| Launcher.Reported | src/main.rs:88-109 | The log has no more lines than there are files. `Launcher.OneFile` states which failures are logged. |
| Launcher.OneFile | src/main.rs:90-108 | A parsed file contributes its entry. A `NotApplication`, `Hidden`, `OnlyShowIn` or `NotShowIn` result is dropped without a log line. Any other error is logged with its path and dropped. |
| Launcher.CollectedAppend | src/main.rs:88-109 | Each file is handled on its own, and no failure stops the later files: the entries and log of two runs of files are those of the first followed by those of the second. |
| Launcher.CollectedSelects | src/main.rs:88-109 | The collected entries are exactly the successful results, and the entries plus the log lines never outnumber the files. |
| Launcher.NewCategories | src/main.rs:43-55 | One fresh, distinct, empty category object per catalog row, with its identifier, name and icon. |
| Launcher.PopulateAll | src/main.rs:111-113 | Every category receives `add_entries` once, with the same full entry list, and keeps its identifier, name and icon. |
| Launcher.RetainNonEmpty | src/main.rs:115 | The kept categories are the non-empty ones, in their previous order. |
| Launcher.PopulateIsRetainEach | src/main.rs:111-115 | Populating every category and then retaining the non-empty ones is the population `Populate` describes. |
| Launcher.Startup | src/main.rs:43-115 | The entries are the collected parse results, the log lists the reportable failures, and the categories are the catalog populated and filtered as `Populate` says. |
| Launcher.Populate | src/main.rs:111-115 | The populated and filtered categories are no more than the catalog rows. `Launcher.PopulateOne`, `Launcher.PopulateAppend` and `Launcher.PopulateViews` state the rest. |
| Launcher.Retain | src/main.rs:115 | `retain` keeps no more categories than it is given, and none of the kept ones is empty. `Launcher.RetainNonEmpty` states that these are exactly the non-empty ones, in order. |
| Launcher.PopulateAppend | src/main.rs:115 | The surviving categories keep their catalog order. |
| Launcher.PopulateOne | src/main.rs:111-115 | A category is dropped exactly when no entry belongs to it. Otherwise it holds its matching entries sorted by name. |
| Launcher.PopulateViews | src/main.rs:111-115 | Every remaining category is non-empty and is a catalog category populated with its matching entries. |
| Launcher.StartupCategories | src/main.rs:43-115 | At most eleven categories reach the menu, none of them empty. |
| Menu.ExpandExec | src/menu.rs:66-77 | The chain of seven replaces. Its properties are stated by `Menu.ExpandWithoutPercent`, `Menu.ExpandTrailingCode`, `Menu.ChainRescansReplacement` and `Menu.DoublePercentNotEscaped`. |
| Menu.LaunchCommand | src/menu.rs:61-78 | The command run on a click is the expansion of the entry's `exec`, with the entry's icon for `%i` and its name for `%c`. |
| Text.Replace | src/menu.rs:66-77 | `str::replace` with a non-empty pattern. `Text.ReplaceAbsent`, `Text.RemoveChanges`, `Text.ReplaceWhole` and `Text.ReplaceSkipsPrefix` state its properties. |
| Menu.ExpandWithoutPercent | src/menu.rs:66-77 | A command without `%` is run as written. |
| Menu.ExpandTrailingCode | src/menu.rs:66-77 | When command, icon and name hold no `%`, a trailing field code expands as follows: `%f`, `%F`, `%u`, `%U` and `%k` vanish, `%i` becomes the icon and `%c` the name. |
| Menu.ChainRescansReplacement | src/menu.rs:66-77 | The replaces apply in order to the whole text, each to the output of the one before: an icon `%c` put in by `%i` is then replaced by the name. |
| Menu.DoublePercentNotEscaped | src/menu.rs:66-77 | `%%f` expands to `%`: the chain has no `%%` escape. |
| Text.ReplaceAbsent | src/menu.rs:66-77 | `str::replace` leaves a text without the pattern unchanged. |
| Text.RemoveChanges | src/menu.rs:66-77 | Removing a pattern changes the text exactly when the pattern occurs in it. |
| Menu.Ranked | src/menu.rs:309-312 | The ranking holds exactly the entries of `entries`, as a multiset. `Menu.RankedSpec` states its order. |
| Menu.TopMatches | src/menu.rs:307-335 | There are min(34, n) results for n entries. `Menu.TopMatchesSpec` states which ones. |
| Menu.RankedSpec | src/menu.rs:307-335 | The ranking holds every entry as often as `entries` does, by non-increasing score. Entries with equal scores come in the reverse of their order in `entries`. |
| Menu.TopMatchesSpec | src/menu.rs:307-335 | The results are the first min(34, n) entries of the ranking, by non-increasing score, each taken from `entries`. No entry left out scores above a shown one. Among equal scores the shown ones are the latest in `entries`, latest first. |
| Menu.TiesLatestFirst | src/menu.rs:309-335 | Two entries with equal scores are listed second one first. |
| Menu.Edit | src/menu.rs:283-291 | A character is appended to the search text. Backspace removes the last character and leaves an empty text empty. |
| Menu.BackspaceUndoes | src/menu.rs:283-291 | Backspace right after a character gives back the text before it. |
| Menu.TypingAppends | src/menu.rs:283-291 | Typing a string appends exactly that string to the search text. |
| Menu.ErasingDrops | src/menu.rs:283-291 | `n` Backspaces drop the last `n` characters, or all of them when there are fewer. |
| Menu.Menu.ShownOnly | src/menu.rs:229-259 | The visibility the hover hook sets: an entry bin is hidden exactly when its category is not the hovered one. |
| Menu.Menu.constructor | src/menu.rs:86-223 | Every category entry bin starts hidden, the search text is empty and there are no search results. |
| Menu.Menu.DisplaySearch | src/menu.rs:306-375 | Every category entry bin is hidden and the search results are `TopMatches` of the unchanged `entries` for the text. This is at most 34 entries; see `Menu.TopMatchesSpec`. The search text does not change. |
| Menu.Menu.OnCharacter | src/menu.rs:274-302 | The search text becomes its `Edit`. The results are those of `display_search` for the new text, and every category entry bin is hidden. |
| Menu.Menu.HoverCategory | src/menu.rs:229-259 | The search results are cleared. The hovered category's entry bins are shown and every other category's are hidden. |

## Left out

- File and directory I/O is not modelled: `File::open`/`read_to_string`, the scan of the two application directories and `shellexpand`. `Launcher.Load` takes the outcome of reading a file as a value, and `Launcher.Startup` takes the list of loaded files.
- The similarity score is a parameter. `strsim::jaro_winkler` and the scaling to `u64` are floating point in a foreign library.
- All drawing is left out: `basalt` bins, styles, colours, hook registration, window options and the grid coordinates of the entry bins. The highlight of the hovered category's nav bin is style only and is left out with them.
- Starting the command is left out: `Command::new("sh")...spawn()`, `basalt.exit()` and `wait_for_exit`. `Menu.LaunchCommand` gives the command string.
- The timing output is left out. Logging is the list of (path, error) reports of `Launcher.Reported`.
- `Arc` and `Mutex` only share values, and are modelled by plain sequences and objects.
- `to_lowercase` is modelled as ASCII lower-casing; full Unicode case mapping is not modelled.
- Categories.Category.AddEntries: the in-place `sort_by_key` is modelled by the sort function `SortByName` on the whole list, not by an in-place array algorithm.
- Menu.Menu.DisplaySearch: the in-place sort of the cloned vector is modelled by the sort function `SortBy`. The vector of new entry bins is modelled as the list of entries they show.
- `Text.Replace` demands a non-empty pattern. Every pattern the source replaces is a two-character literal.
- The richer parser implied by `DesktopEntryErr` is not part of this model, because the shown `desktop.rs` does not contain it. That parser would add section awareness, first-occurrence shadowing, `Type`/`Hidden`/`OnlyShowIn`/`NotShowIn`, and `GenericName`/`Path`/`Terminal`.
