/**
 The reading screen's bookmark button: it asks whether the current page is
 bookmarked and then removes or adds it. Used on its own, the button keeps
 each document's list a set of pages.
 */
module BookmarkToggle {
  import opened Optional
  import opened Pages
  import opened BookmarksProvider
  import opened BookmarkLaws

  /** `addOrRemoveBookmark`: remove the page if bookmarked, add it otherwise. */
  function AddOrRemoveBookmark(st: Store, docs: string, raw: string, page: int): (r: Store)
    ensures Migrated(r, docs, raw)
    ensures r - {TrimDocumentsPath(docs, raw)} == st - {raw, TrimDocumentsPath(docs, raw)}
  {
    var has := HasBookmark(st, docs, raw, page);
    if has.value then RemoveBookmark(has.store, docs, raw, page)
    else AddBookmark(has.store, docs, raw, page)
  }

  /**
   Pressing the button takes one copy of the page out of a list holding it
   and puts one into a list (or missing entry) without it.
   */
  lemma ToggleChangesOneCopy(st: Store, docs: string, raw: string, page: int)
    ensures var v := Visible(AddOrRemoveBookmark(st, docs, raw, page), docs, raw);
      && v.Some?
      && (HasBookmark(st, docs, raw, page).value ==>
            multiset(v.value) == multiset(Visible(st, docs, raw).value) - multiset{page})
      && (!HasBookmark(st, docs, raw, page).value ==>
            multiset(v.value) == multiset(Visible(st, docs, raw).GetOr([])) + multiset{page})
  {
    var has := HasBookmark(st, docs, raw, page);
    VisibleAfterMigration(st, docs, raw);
    if has.value {
      VisibleAfterRemove(has.store, docs, raw, page);
    } else {
      VisibleAfterAdd(has.store, docs, raw, page);
    }
  }

  /** With at most one copy of the page in the list, pressing the button flips its state. */
  lemma ToggleFlips(st: Store, docs: string, raw: string, page: int)
    requires multiset(Visible(st, docs, raw).GetOr([]))[page] <= 1
    ensures HasBookmark(AddOrRemoveBookmark(st, docs, raw, page), docs, raw, page).value
         == !HasBookmark(st, docs, raw, page).value
  {
    var r := AddOrRemoveBookmark(st, docs, raw, page);
    ToggleChangesOneCopy(st, docs, raw, page);
    if HasBookmark(st, docs, raw, page).value {
      assert multiset(Visible(r, docs, raw).value)[page] == 0;
    } else {
      assert page in multiset(Visible(r, docs, raw).value);
    }
  }

  /** Pressing the button keeps a document's list strictly ascending: a set of pages. */
  lemma ToggleKeepsPageSet(st: Store, docs: string, raw: string, page: int)
    requires Visible(st, docs, raw).None? || StrictlySorted(Visible(st, docs, raw).value)
    ensures var v := Visible(AddOrRemoveBookmark(st, docs, raw, page), docs, raw);
      v.Some? && StrictlySorted(v.value)
  {
    var has := HasBookmark(st, docs, raw, page);
    var m := has.store;
    VisibleAfterMigration(st, docs, raw);
    var before := Visible(st, docs, raw).GetOr([]);
    if has.value {
      VisibleAfterRemove(m, docs, raw, page);
      RemoveAtKeepsOrder(before, FirstIndex(before, page).value);
    } else {
      VisibleAfterAdd(m, docs, raw, page);
      var v := Visible(AddBookmark(m, docs, raw, page), docs, raw).value;
      forall x
        ensures multiset(v)[x] <= 1
      {
        if Visible(st, docs, raw).Some? {
          StrictlySortedHasNoRepeats(before, x);
        }
      }
      SortedWithoutRepeatsIsStrict(v);
    }
  }

  /**
   On a page set, the button takes the page out when it is in and puts it
   in when it is out, and the result is again a page set.
   */
  lemma ToggleOnPageSet(st: Store, docs: string, raw: string, page: int)
    requires Visible(st, docs, raw).None? || StrictlySorted(Visible(st, docs, raw).value)
    ensures var before := Visible(st, docs, raw).GetOr([]);
      var v := Visible(AddOrRemoveBookmark(st, docs, raw, page), docs, raw);
      && v.Some? && StrictlySorted(v.value)
      && (page in before ==> multiset(v.value) == multiset(before) - multiset{page})
      && (page !in before ==> multiset(v.value) == multiset(before) + multiset{page})
  {
    ToggleKeepsPageSet(st, docs, raw, page);
    ToggleChangesOneCopy(st, docs, raw, page);
  }

  /** Taking a single copy out and putting it back, or the reverse, restores the pages. */
  lemma OneCopyOutAndBack(before: seq<int>, v1: seq<int>, v2: seq<int>, page: int)
    requires multiset(before)[page] <= 1
    requires page in before ==> multiset(v1) == multiset(before) - multiset{page}
    requires page !in before ==> multiset(v1) == multiset(before) + multiset{page}
    requires page in v1 ==> multiset(v2) == multiset(v1) - multiset{page}
    requires page !in v1 ==> multiset(v2) == multiset(v1) + multiset{page}
    ensures multiset(v2) == multiset(before)
  {
    if page in before {
      assert multiset(v1)[page] == 0;
      assert page !in v1;
    } else {
      assert page in multiset(v1);
    }
  }

  /** Pressing the button twice on a page set gives the document's list back. */
  lemma ToggleTwiceRestores(st: Store, docs: string, raw: string, page: int)
    requires Visible(st, docs, raw).None? || StrictlySorted(Visible(st, docs, raw).value)
    ensures var twice := AddOrRemoveBookmark(AddOrRemoveBookmark(st, docs, raw, page), docs, raw, page);
      Visible(twice, docs, raw) == Some(Visible(st, docs, raw).GetOr([]))
  {
    var before := Visible(st, docs, raw).GetOr([]);
    var once := AddOrRemoveBookmark(st, docs, raw, page);
    var v1 := Visible(once, docs, raw);
    assert v1.Some? && StrictlySorted(v1.value)
      && (page in before ==> multiset(v1.value) == multiset(before) - multiset{page})
      && (page !in before ==> multiset(v1.value) == multiset(before) + multiset{page}) by {
      ToggleOnPageSet(st, docs, raw, page);
    }
    var twice := AddOrRemoveBookmark(once, docs, raw, page);
    var v2 := Visible(twice, docs, raw);
    assert v2.Some? && StrictlySorted(v2.value)
      && (page in v1.value ==> multiset(v2.value) == multiset(v1.value) - multiset{page})
      && (page !in v1.value ==> multiset(v2.value) == multiset(v1.value) + multiset{page}) by {
      ToggleOnPageSet(once, docs, raw, page);
    }
    assert multiset(before)[page] <= 1 by {
      if Visible(st, docs, raw).Some? {
        StrictlySortedHasNoRepeats(before, page);
      }
    }
    OneCopyOutAndBack(before, v1.value, v2.value, page);
    StrictlySortedIsSorted(v2.value);
    if Visible(st, docs, raw).Some? {
      StrictlySortedIsSorted(before);
    }
    SortedPermutationIsUnique(v2.value, before);
  }
}
