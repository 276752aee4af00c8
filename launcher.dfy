/**
 * The start-up pipeline of `main`: the fixed category catalog, the
 * collection of the parse results of every discovered file, the population
 * of every category with the full entry list, and the removal of the
 * categories that stayed empty.
 */
module Launcher {
  import opened Wrappers
  import opened Text
  import opened Desktop
  import opened Categories

  /** The errors `main` tells apart when a file yields no entry. */
  datatype LoadError = NotApplication | Hidden | OnlyShowIn | NotShowIn | Other(message: string)

  /** The rejections `main` drops without logging. */
  predicate Silent(e: LoadError)
  {
    e.NotApplication? || e.Hidden? || e.OnlyShowIn? || e.NotShowIn?
  }

  /**
   * `DesktopEntry::new(path)`: `read` is the outcome of opening and reading
   * the file (an I/O error message or the text); the text is then parsed.
   */
  function Load(read: Result<string, string>): (r: Result<DesktopEntry, LoadError>)
    ensures r.Failure? ==> r.error.Other?
    ensures read.Failure? ==> r == Failure(Other(read.error))
    ensures read.Success? ==> (r.Success? <==> ParseText(read.value).Success?)
    ensures read.Success? && ParseText(read.value).Failure? ==>
      r == Failure(Other(Message(ParseText(read.value).error)))
    ensures r.Success? ==> read.Success? && r.value == ParseText(read.value).value
  {
    match read
    case Failure(message) => Failure(Other(message))
    case Success(text) =>
      match ParseText(text)
      case Success(entry) => Success(entry)
      case Failure(e) => Failure(Other(Message(e)))
  }

  /** One discovered file and what loading it gave. */
  datatype Loaded = Loaded(path: string, result: Result<DesktopEntry, LoadError>)

  /** A logged failure: the path and the error. */
  datatype Report = Report(path: string, error: LoadError)

  /** The `filter_map`/`collect` of `main`: the entries of the files that parsed, in file order. */
  function Collected(files: seq<Loaded>): (r: seq<DesktopEntry>)
    ensures |r| <= |files|
    decreases |files|
  {
    if files == [] then []
    else (if files[0].result.Success? then [files[0].result.value] else []) + Collected(files[1..])
  }

  /** What the `filter_map` logs: every failure that is not silent, in file order. */
  function Reported(files: seq<Loaded>): (r: seq<Report>)
    ensures |r| <= |files|
    decreases |files|
  {
    if files == [] then []
    else
      var r := files[0].result;
      (if r.Failure? && !Silent(r.error) then [Report(files[0].path, r.error)] else [])
      + Reported(files[1..])
  }

  // ---------------------------------------------------------------------
  // The category catalog
  // ---------------------------------------------------------------------

  /** One row of the hand-written catalog: identifier, display name, icon name. */
  datatype CatalogEntry = CatalogEntry(iden: string, name: string, icon: string)

  /** The eleven categories `main` creates, in display order. */
  function Catalog(): (c: seq<CatalogEntry>)
    ensures |c| == 11
    ensures c[0].iden == "utility" && c[10].iden == "system"
  {
    [ CatalogEntry("utility", "Accessories", "applications-utilities"),
      CatalogEntry("development", "Development", "applications-development"),
      CatalogEntry("education", "Education", "applications-science"),
      CatalogEntry("game", "Games", "applications-games"),
      CatalogEntry("graphics", "Graphics", "applications-graphics"),
      CatalogEntry("audiovideo", "Multimedia", "applications-multimedia"),
      CatalogEntry("network", "Network", "applications-internet"),
      CatalogEntry("office", "Office", "applications-office"),
      CatalogEntry("other", "Other", "applications-other"),
      CatalogEntry("settings", "Settings", "applications-accessories"),
      CatalogEntry("system", "System", "applications-system") ]
  }

  /** No two catalog rows share an identifier: each length and first letter occurs once. */
  lemma CatalogDistinct()
    ensures forall i, j :: 0 <= i < j < |Catalog()| ==> Catalog()[i].iden != Catalog()[j].iden
  {
    var c := Catalog();
    forall i, j | 0 <= i < j < |c| ensures c[i].iden != c[j].iden {
      assert |c[i].iden| != |c[j].iden| || c[i].iden[0] != c[j].iden[0];
    }
  }

  /** The identifiers are already lower case, so lower-casing them changes nothing. */
  lemma CatalogLowerCase()
    ensures forall i :: 0 <= i < |Catalog()| ==> Lower(Catalog()[i].iden) == Catalog()[i].iden
  {
  }

  // ---------------------------------------------------------------------
  // Populating the catalog, as values
  // ---------------------------------------------------------------------

  /** A category's fields as values. */
  datatype CategoryView = CategoryView(iden: string, name: string, icon: string, entries: seq<DesktopEntry>)

  /** A fresh category of the catalog after one `add_entries(entries)`. */
  function Populated(c: CatalogEntry, entries: seq<DesktopEntry>): CategoryView
  {
    CategoryView(c.iden, c.name, c.icon, SortByName(Matching(entries, c.iden)))
  }

  /** Every catalog category populated, then `retain(|c| !c.entries.is_empty())`. */
  function Populate(catalog: seq<CatalogEntry>, entries: seq<DesktopEntry>): (r: seq<CategoryView>)
    ensures |r| <= |catalog|
    decreases |catalog|
  {
    if catalog == [] then []
    else
      var v := Populated(catalog[|catalog| - 1], entries);
      Populate(catalog[..|catalog| - 1], entries) + (if v.entries == [] then [] else [v])
  }

  /** Every catalog category after one `add_entries(entries)`, empty ones included. */
  function PopulateEach(catalog: seq<CatalogEntry>, entries: seq<DesktopEntry>): (vs: seq<CategoryView>)
    ensures |vs| == |catalog|
    ensures forall k :: 0 <= k < |vs| ==> vs[k] == Populated(catalog[k], entries)
  {
    seq(|catalog|, k requires 0 <= k < |catalog| => Populated(catalog[k], entries))
  }

  /** `retain(|c| !c.entries.is_empty())`. */
  function Retain(vs: seq<CategoryView>): (r: seq<CategoryView>)
    ensures |r| <= |vs|
    ensures forall k :: 0 <= k < |r| ==> r[k].entries != []
    decreases |vs|
  {
    if vs == [] then []
    else
      var v := vs[|vs| - 1];
      Retain(vs[..|vs| - 1]) + (if v.entries == [] then [] else [v])
  }

  /** Populating the whole catalog and then retaining is what `Populate` says. */
  lemma {:induction false} PopulateIsRetainEach(catalog: seq<CatalogEntry>, entries: seq<DesktopEntry>)
    ensures Populate(catalog, entries) == Retain(PopulateEach(catalog, entries))
    decreases |catalog|
  {
    if catalog != [] {
      var init := catalog[..|catalog| - 1];
      PopulateIsRetainEach(init, entries);
      assert PopulateEach(catalog, entries)[..|catalog| - 1] == PopulateEach(init, entries);
    }
  }

  /** The values of a list of category objects. */
  ghost function Views(cs: seq<Category>): (vs: seq<CategoryView>)
    reads cs
    ensures |vs| == |cs|
    ensures forall k :: 0 <= k < |cs| ==>
      vs[k] == CategoryView(cs[k].iden, cs[k].name, cs[k].icon, cs[k].entries)
  {
    seq(|cs|, k reads cs requires 0 <= k < |cs| =>
      CategoryView(cs[k].iden, cs[k].name, cs[k].icon, cs[k].entries))
  }

  // ---------------------------------------------------------------------
  // The pipeline as `main` runs it
  // ---------------------------------------------------------------------

  /** `vec![Category::new(..), ..]`: one fresh, empty category per catalog row. */
  method NewCategories(catalog: seq<CatalogEntry>) returns (all: seq<Category>)
    ensures |all| == |catalog|
    ensures forall j :: 0 <= j < |all| ==> fresh(all[j])
    ensures forall j, k :: 0 <= j < k < |all| ==> all[j] != all[k]
    ensures Views(all) == seq(|catalog|, j requires 0 <= j < |catalog| =>
      CategoryView(catalog[j].iden, catalog[j].name, catalog[j].icon, []))
  {
    all := [];
    for i := 0 to |catalog|
      invariant |all| == i
      invariant forall j :: 0 <= j < i ==> fresh(all[j])
      invariant forall j, k :: 0 <= j < k < i ==> all[j] != all[k]
      invariant forall j :: 0 <= j < i ==>
        all[j].iden == catalog[j].iden && all[j].name == catalog[j].name
        && all[j].icon == catalog[j].icon && all[j].entries == []
    {
      var c := new Category(catalog[i].iden, catalog[i].name, catalog[i].icon);
      all := all + [c];
    }
  }

  /** `for category in &mut categories { category.add_entries(&entries) }`. */
  method PopulateAll(all: seq<Category>, entries: seq<DesktopEntry>)
    requires forall j, k :: 0 <= j < k < |all| ==> all[j] != all[k]
    modifies all
    ensures forall j :: 0 <= j < |all| ==>
      && all[j].iden == old(all[j].iden) && all[j].name == old(all[j].name) && all[j].icon == old(all[j].icon)
      && all[j].entries == SortByName(old(all[j].entries) + Matching(entries, all[j].iden))
  {
    for i := 0 to |all|
      invariant forall j :: 0 <= j < |all| ==>
        all[j].iden == old(all[j].iden) && all[j].name == old(all[j].name) && all[j].icon == old(all[j].icon)
      invariant forall j :: 0 <= j < i ==>
        all[j].entries == SortByName(old(all[j].entries) + Matching(entries, all[j].iden))
      invariant forall j :: i <= j < |all| ==> all[j].entries == old(all[j].entries)
    {
      all[i].AddEntries(entries);
    }
  }

  /** `categories.retain(|c| !c.entries.is_empty())`. */
  method RetainNonEmpty(all: seq<Category>) returns (kept: seq<Category>)
    ensures Views(kept) == Retain(Views(all))
  {
    kept := [];
    for i := 0 to |all|
      invariant Views(kept) == Retain(Views(all[..i]))
    {
      assert all[..i + 1][..i] == all[..i];
      assert Views(all[..i + 1])[..i] == Views(all[..i]);
      if all[i].entries != [] {
        kept := kept + [all[i]];
      }
    }
    assert all[..|all|] == all;
  }

  /**
   * From the loaded files to the categories handed to the menu: build the
   * catalog, collect the entries, call `add_entries` on every category with
   * the full list, and keep the non-empty categories in catalog order.
   */
  method Startup(files: seq<Loaded>) returns (categories: seq<Category>, entries: seq<DesktopEntry>, log: seq<Report>)
    ensures entries == Collected(files)
    ensures log == Reported(files)
    ensures Views(categories) == Populate(Catalog(), entries)
  {
    var catalog := Catalog();
    var all := NewCategories(catalog);
    entries := Collected(files);
    log := Reported(files);
    PopulateAll(all, entries);
    assert Views(all) == PopulateEach(catalog, entries) by {
      forall j | 0 <= j < |all| ensures all[j].entries == Populated(catalog[j], entries).entries {
        assert [] + Matching(entries, all[j].iden) == Matching(entries, all[j].iden);
      }
    }
    categories := RetainNonEmpty(all);
    PopulateIsRetainEach(catalog, entries);
  }

  // ---------------------------------------------------------------------
  // Properties of the collection
  // ---------------------------------------------------------------------

  /** The first file contributes its entry or its report ahead of the others'. */
  lemma CollectedCons(f: Loaded, rest: seq<Loaded>)
    ensures Collected([f] + rest) == Collected([f]) + Collected(rest)
    ensures Reported([f] + rest) == Reported([f]) + Reported(rest)
  {
    assert ([f] + rest)[1..] == rest;
    assert [f][1..] == [];
  }

  /** Each file is handled on its own: failures never stop the files after them. */
  lemma {:induction false} CollectedAppend(a: seq<Loaded>, b: seq<Loaded>)
    ensures Collected(a + b) == Collected(a) + Collected(b)
    ensures Reported(a + b) == Reported(a) + Reported(b)
    decreases |a|
  {
    if a == [] {
      assert a + b == b;
    } else {
      assert a == [a[0]] + a[1..];
      assert a + b == [a[0]] + (a[1..] + b);
      CollectedAppend(a[1..], b);
      CollectedCons(a[0], a[1..] + b);
      CollectedCons(a[0], a[1..]);
    }
  }

  /** One file: an entry is kept, a silent failure vanishes, any other failure is logged. */
  lemma OneFile(f: Loaded)
    ensures f.result.Success? ==> Collected([f]) == [f.result.value] && Reported([f]) == []
    ensures f.result.Failure? && Silent(f.result.error) ==> Collected([f]) == [] && Reported([f]) == []
    ensures f.result.Failure? && !Silent(f.result.error) ==>
      Collected([f]) == [] && Reported([f]) == [Report(f.path, f.result.error)]
  {
    assert [f][1..] == [];
  }

  /** The collected entries are exactly the successful results. */
  lemma {:induction false} CollectedSelects(files: seq<Loaded>)
    ensures forall e :: e in Collected(files) <==>
      exists i :: 0 <= i < |files| && files[i].result == Success(e)
    ensures |Collected(files)| + |Reported(files)| <= |files|
    decreases |files|
  {
    if files != [] {
      CollectedSelects(files[1..]);
      forall e | e in Collected(files) ensures exists i :: 0 <= i < |files| && files[i].result == Success(e) {
        if !(files[0].result.Success? && e == files[0].result.value) {
          assert e in Collected(files[1..]);
          var i :| 0 <= i < |files[1..]| && files[1..][i].result == Success(e);
          assert files[i + 1].result == Success(e);
        }
      }
      forall e | exists i :: 0 <= i < |files| && files[i].result == Success(e) ensures e in Collected(files) {
        var i :| 0 <= i < |files| && files[i].result == Success(e);
        if i > 0 {
          assert files[1..][i - 1] == files[i];
        }
      }
    }
  }

  // ---------------------------------------------------------------------
  // Properties of the population
  // ---------------------------------------------------------------------

  /** The categories that survive keep their catalog order. */
  lemma {:induction false} PopulateAppend(a: seq<CatalogEntry>, b: seq<CatalogEntry>, entries: seq<DesktopEntry>)
    ensures Populate(a + b, entries) == Populate(a, entries) + Populate(b, entries)
    decreases |b|
  {
    if b == [] {
      assert a + b == a;
    } else {
      assert (a + b)[..|a + b| - 1] == a + b[..|b| - 1];
      assert (a + b)[|a + b| - 1] == b[|b| - 1];
      PopulateAppend(a, b[..|b| - 1], entries);
    }
  }

  /** A category is dropped exactly when no entry belongs to it. */
  lemma PopulateOne(c: CatalogEntry, entries: seq<DesktopEntry>)
    ensures Populate([c], entries) == [] <==> forall e :: e in entries ==> !BelongsTo(e, c.iden)
    ensures Populate([c], entries) != [] ==> Populate([c], entries) == [Populated(c, entries)]
  {
    assert [c][..0] == [];
    MatchingSelects(entries, c.iden);
    SortByNameSpec(Matching(entries, c.iden));
    var m := Matching(entries, c.iden);
    if m != [] {
      assert m[0] in multiset(SortByName(m));
    }
  }

  /**
   * Every remaining category is non-empty, comes from the catalog, and
   * lists exactly its matching entries, sorted by lower-cased name.
   */
  lemma {:induction false} PopulateViews(catalog: seq<CatalogEntry>, entries: seq<DesktopEntry>)
    ensures |Populate(catalog, entries)| <= |catalog|
    ensures forall k :: 0 <= k < |Populate(catalog, entries)| ==>
      Populate(catalog, entries)[k].entries != []
      && exists c :: c in catalog && Populate(catalog, entries)[k] == Populated(c, entries)
    decreases |catalog|
  {
    if catalog != [] {
      var init := catalog[..|catalog| - 1];
      PopulateViews(init, entries);
      var p := Populate(catalog, entries);
      forall k | 0 <= k < |p|
        ensures p[k].entries != [] && exists c :: c in catalog && p[k] == Populated(c, entries)
      {
        if k < |Populate(init, entries)| {
          assert p[k] == Populate(init, entries)[k];
          var c :| c in init && p[k] == Populated(c, entries);
          assert c in catalog;
        } else {
          assert p[k] == Populated(catalog[|catalog| - 1], entries);
        }
      }
    }
  }

  /** The categories handed to the menu: at most eleven, each known to the catalog, none empty. */
  lemma StartupCategories(entries: seq<DesktopEntry>)
    ensures |Populate(Catalog(), entries)| <= 11
    ensures forall k :: 0 <= k < |Populate(Catalog(), entries)| ==> Populate(Catalog(), entries)[k].entries != []
  {
    PopulateViews(Catalog(), entries);
  }
}
