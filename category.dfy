/**
 * `Category`: one group of the launcher's browse view, with the entries
 * whose categories name it, kept sorted by lower-cased name.
 */
module Categories {
  import opened Text
  import opened Sorting
  import opened Desktop

  /** Some category of `e` equals `iden` once both are lower-cased. */
  predicate BelongsTo(e: DesktopEntry, iden: string)
  {
    exists c :: c in e.categories && Lower(c) == Lower(iden)
  }

  /** The entries of `es` that belong to `iden`, in their order in `es`. */
  function Matching(es: seq<DesktopEntry>, iden: string): (r: seq<DesktopEntry>)
    ensures |r| <= |es|
    decreases |es|
  {
    if es == [] then []
    else
      var last := es[|es| - 1];
      Matching(es[..|es| - 1], iden) + (if BelongsTo(last, iden) then [last] else [])
  }

  /** The sort key of `add_entries`: the lower-cased name. */
  function LowerName(e: DesktopEntry): string
  {
    Lower(e.name)
  }

  /** `sort_by_key(|e| e.name.to_lowercase())`. */
  function SortByName(s: seq<DesktopEntry>): seq<DesktopEntry>
  {
    SortBy(s, LowerName, LexLe)
  }

  class Category {
    var iden: string
    var name: string
    var icon: string
    var entries: seq<DesktopEntry>

    /** `Category::new`. */
    constructor (iden: string, name: string, icon: string)
      ensures this.iden == iden && this.name == name && this.icon == icon
      ensures entries == []
    {
      this.iden := iden;
      this.name := name;
      this.icon := icon;
      this.entries := [];
    }

    /** `add_entries`: appends the entries that belong here, then sorts the whole list by name. */
    method AddEntries(es: seq<DesktopEntry>)
      modifies this
      ensures iden == old(iden) && name == old(name) && icon == old(icon)
      ensures entries == SortByName(old(entries) + Matching(es, iden))
    {
      for i := 0 to |es|
        invariant iden == old(iden) && name == old(name) && icon == old(icon)
        invariant entries == old(entries) + Matching(es[..i], iden)
      {
        assert es[..i + 1][..i] == es[..i];
        if BelongsTo(es[i], iden) {
          entries := entries + [es[i]];
        }
      }
      assert es[..|es|] == es;
      entries := SortByName(entries);
    }
  }

  // ---------------------------------------------------------------------
  // Properties
  // ---------------------------------------------------------------------

  lemma LexLeTotalOrder()
    ensures TotalOrder(LexLe)
  {
    forall a, b ensures LexLe(a, b) || LexLe(b, a) {
      LexLeTotal(a, b);
    }
    forall a, b | LexLe(a, b) && LexLe(b, a) ensures a == b {
      LexLeAntisymmetric(a, b);
    }
    forall a, b, c | LexLe(a, b) && LexLe(b, c) ensures LexLe(a, c) {
      LexLeTransitive(a, b, c);
    }
  }

  /** Exactly the entries that belong to `iden` are kept, as often as they occur. */
  lemma {:induction false} MatchingSelects(es: seq<DesktopEntry>, iden: string)
    ensures forall e :: e in Matching(es, iden) <==> e in es && BelongsTo(e, iden)
    ensures forall e :: BelongsTo(e, iden) ==> multiset(Matching(es, iden))[e] == multiset(es)[e]
    ensures forall e :: !BelongsTo(e, iden) ==> multiset(Matching(es, iden))[e] == 0
    decreases |es|
  {
    if es != [] {
      var front, last := es[..|es| - 1], es[|es| - 1];
      MatchingSelects(front, iden);
      assert es == front + [last];
      if BelongsTo(last, iden) {
        assert Matching(es, iden) == Matching(front, iden) + [last];
      } else {
        assert Matching(es, iden) == Matching(front, iden);
      }
    }
  }

  /**
   * The sorted list holds the same entries, in non-decreasing order of
   * lower-cased name, and entries with equal lower-cased names keep their order.
   */
  lemma SortByNameSpec(s: seq<DesktopEntry>)
    ensures multiset(SortByName(s)) == multiset(s)
    ensures forall i, j :: 0 <= i < j < |SortByName(s)| ==>
      LexLe(Lower(SortByName(s)[i].name), Lower(SortByName(s)[j].name))
    ensures forall k :: SameKey(SortByName(s), LowerName, k) == SameKey(s, LowerName, k)
  {
    LexLeTotalOrder();
    SortByPermutes(s, LowerName, LexLe);
    SortBySorted(s, LowerName, LexLe);
    forall k ensures SameKey(SortByName(s), LowerName, k) == SameKey(s, LowerName, k) {
      SortByStable(s, LowerName, LexLe, k);
    }
  }

  /** After `add_entries`, the list is sorted and holds only old entries and entries that belong. */
  lemma AddedEntries(before: seq<DesktopEntry>, es: seq<DesktopEntry>, iden: string)
    ensures multiset(SortByName(before + Matching(es, iden)))
         == multiset(before) + multiset(Matching(es, iden))
    ensures forall e :: e in SortByName(before + Matching(es, iden)) ==>
      e in before || (e in es && BelongsTo(e, iden))
    ensures forall e :: e in es && BelongsTo(e, iden) ==> e in SortByName(before + Matching(es, iden))
  {
    var all := before + Matching(es, iden);
    SortByNameSpec(all);
    MatchingSelects(es, iden);
    forall e | e in SortByName(all) ensures e in before || (e in es && BelongsTo(e, iden)) {
      assert e in multiset(all);
    }
    forall e | e in es && BelongsTo(e, iden) ensures e in SortByName(all) {
      assert e in multiset(SortByName(all));
    }
  }

  /** Two entries named "Zeta" and "alpha" are listed "alpha" first. */
  lemma CaseInsensitiveOrder(zeta: DesktopEntry, alpha: DesktopEntry)
    requires zeta.name == "Zeta" && alpha.name == "alpha"
    ensures SortByName([zeta, alpha]) == [alpha, zeta]
  {
    assert Lower(zeta.name) == "zeta" by {
      assert LowerChar('Z') == 'z';
    }
    assert Lower(alpha.name) == "alpha";
    assert !LexLe("zeta", "alpha");
    var s := [zeta, alpha];
    assert s[1..] == [alpha];
    assert SortBy([alpha], LowerName, LexLe) == InsertBy(alpha, [], LowerName, LexLe) == [alpha] by {
      assert [alpha][1..] == [];
    }
    assert InsertBy(zeta, [alpha], LowerName, LexLe) == [alpha] + InsertBy(zeta, [], LowerName, LexLe);
  }
}
