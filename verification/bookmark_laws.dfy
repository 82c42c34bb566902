/**
 Properties relating the bookmark store's operations to each other: key
 trimming, migration settling after one run, add/remove round trips, the
 sorted-store invariant and the "no entry" versus "empty entry" distinction.
 */
module BookmarkLaws {
  import opened Optional
  import opened Text
  import opened Pages
  import opened BookmarksProvider

  // ---- key trimming ----

  /** The key equals the location string exactly when the directory path does not occur in it. */
  lemma TrimIsIdentityIffNoDocumentsPath(docs: string, path: string)
    ensures TrimDocumentsPath(docs, path) == path <==> !Occurs(path, docs + "/")
  {
    ReplaceAllChangesIffOccurs(path, docs + "/");
  }

  /** A location starting with the directory path loses that prefix (and any later occurrence). */
  lemma TrimStripsLeadingDocumentsPath(docs: string, rest: string)
    ensures TrimDocumentsPath(docs, docs + "/" + rest) == ReplaceAll(rest, docs + "/")
    ensures !Occurs(rest, docs + "/") ==> TrimDocumentsPath(docs, docs + "/" + rest) == rest
  {
    ReplaceAllDropsLeadingMatch(docs + "/", rest);
    ReplaceAllChangesIffOccurs(rest, docs + "/");
  }

  /**
   A file URL's absolute string starts with "file://", so for an absolute
   directory path the path is removed from the middle of the string and the
   key keeps the scheme: "file://" followed by the document's relative path.
   */
  lemma TrimFileUrl(docs: string, name: string)
    requires |docs| >= 2 && docs[0] == '/' && docs[1] != '/'
    requires !Occurs(name, docs + "/")
    ensures TrimDocumentsPath(docs, "file://" + docs + "/" + name) == "file://" + name
  {
    var pat := docs + "/";
    var a := "file://";
    var b := pat + name;
    assert "file://" + docs + "/" + name == a + b;
    forall i: nat | i < |a|
      ensures !MatchAt(a + b, pat, i)
    {
      assert (a + b)[i] != pat[0] || (a + b)[i + 1] != pat[1];
    }
    ReplaceAllKeepsClearPrefix(a, b, pat);
    ReplaceAllDropsLeadingMatch(pat, name);
    ReplaceAllChangesIffOccurs(name, pat);
  }

  // ---- migration ----

  /** No legacy entry is left under a location string that differs from its key. */
  predicate Migrated(st: Store, docs: string, raw: string) {
    raw in st ==> raw == TrimDocumentsPath(docs, raw)
  }

  /** Migration leaves the store migrated, and a migrated store is left as it is. */
  lemma MigrationSettles(st: Store, docs: string, raw: string)
    ensures Migrated(MigrateLegacyBookmarks(st, docs, raw), docs, raw)
    ensures Migrated(st, docs, raw) ==> MigrateLegacyBookmarks(st, docs, raw) == st
  {
    if raw in st && raw == TrimDocumentsPath(docs, raw) {
      assert (st - {raw})[raw := st[raw]] == st;
    }
  }

  /** Running the migration twice gives the store running it once gives. */
  lemma MigrationIsIdempotent(st: Store, docs: string, raw: string)
    ensures MigrateLegacyBookmarks(MigrateLegacyBookmarks(st, docs, raw), docs, raw)
         == MigrateLegacyBookmarks(st, docs, raw)
  {
    MigrationSettles(st, docs, raw);
    MigrationSettles(MigrateLegacyBookmarks(st, docs, raw), docs, raw);
  }

  /** Adding and removing leave every other document's entry as it was. */
  lemma OtherDocumentsUntouched(st: Store, docs: string, raw: string, page: int, other: string)
    requires other != raw && other != TrimDocumentsPath(docs, raw)
    ensures Lookup(AddBookmark(st, docs, raw, page), other) == Lookup(st, other)
    ensures Lookup(RemoveBookmark(st, docs, raw, page), other) == Lookup(st, other)
  {
    var key := TrimDocumentsPath(docs, raw);
    var a := AddBookmark(st, docs, raw, page);
    var r := RemoveBookmark(st, docs, raw, page);
    assert other in a <==> other in a - {key};
    assert other in r <==> other in r - {key};
    assert other in st <==> other in st - {raw, key};
  }

  /** Migration does not change what a document reads. */
  lemma VisibleAfterMigration(st: Store, docs: string, raw: string)
    ensures Visible(MigrateLegacyBookmarks(st, docs, raw), docs, raw) == Visible(st, docs, raw)
  {
  }

  /** Adding and removing leave the store migrated for that document. */
  lemma UpdatesLeaveStoreMigrated(st: Store, docs: string, raw: string, page: int)
    ensures Migrated(AddBookmark(st, docs, raw, page), docs, raw)
    ensures Migrated(RemoveBookmark(st, docs, raw, page), docs, raw)
  {
  }

  /** In a migrated store the visible list is the trimmed key's entry. */
  lemma VisibleOfMigrated(st: Store, docs: string, raw: string)
    requires Migrated(st, docs, raw)
    ensures Visible(st, docs, raw) == Lookup(st, TrimDocumentsPath(docs, raw))
  {
  }

  /**
   A legacy entry under a file URL moves to the trimmed key on the first
   read, keeps its pages, and the legacy key disappears.
   */
  lemma MigrationOfFileUrl(docs: string, name: string, pages: seq<int>)
    requires |docs| >= 2 && docs[0] == '/' && docs[1] != '/'
    requires !Occurs(name, docs + "/")
    ensures var raw := "file://" + docs + "/" + name;
      var r := Bookmarks(map[raw := pages], docs, raw);
      && r.value == Some(pages)
      && r.store == map["file://" + name := pages]
  {
    TrimFileUrl(docs, name);
    var raw := "file://" + docs + "/" + name;
    assert |raw| > |"file://" + name|;
    var st: Store := map[raw := pages];
    assert st - {raw} == map[];
  }

  // ---- adding ----

  /** What a document reads after an add: a sorted list with one more copy of the page. */
  lemma VisibleAfterAdd(st: Store, docs: string, raw: string, page: int)
    ensures var r := AddBookmark(st, docs, raw, page);
      && Migrated(r, docs, raw)
      && Visible(r, docs, raw).Some?
      && Sorted(Visible(r, docs, raw).value)
      && multiset(Visible(r, docs, raw).value) == multiset(Visible(st, docs, raw).GetOr([])) + multiset{page}
  {
  }

  /**
   On a sorted list (or no entry), sorting the list with the page appended
   is the same as inserting the page at its place.
   */
  lemma AddIsSortedInsert(st: Store, docs: string, raw: string, page: int)
    requires Visible(st, docs, raw).None? || Sorted(Visible(st, docs, raw).value)
    ensures Visible(AddBookmark(st, docs, raw, page), docs, raw)
         == Some(Insert(Visible(st, docs, raw).GetOr([]), page))
  {
    VisibleAfterAdd(st, docs, raw, page);
    var v := Visible(AddBookmark(st, docs, raw, page), docs, raw).value;
    SortedPermutationIsUnique(v, Insert(Visible(st, docs, raw).GetOr([]), page));
  }

  /** After adding a page the document has that page bookmarked. */
  lemma AddThenHas(st: Store, docs: string, raw: string, page: int)
    ensures HasBookmark(AddBookmark(st, docs, raw, page), docs, raw, page).value
  {
    VisibleAfterAdd(st, docs, raw, page);
    assert page in multiset(Visible(AddBookmark(st, docs, raw, page), docs, raw).value);
  }

  /** Adding never deduplicates: each add puts one more copy of the page in the list. */
  lemma AddKeepsRepeats(st: Store, docs: string, raw: string, page: int)
    ensures var r := AddBookmark(st, docs, raw, page);
      Visible(r, docs, raw).Some?
      && multiset(Visible(r, docs, raw).value)[page]
         == multiset(Visible(st, docs, raw).GetOr([]))[page] + 1
  {
    VisibleAfterAdd(st, docs, raw, page);
  }

  /** Adding a page to a document reading just that page stores it twice. */
  lemma AddToSingleton(once: Store, docs: string, raw: string, page: int)
    requires Visible(once, docs, raw) == Some([page])
    ensures Bookmarks(AddBookmark(once, docs, raw, page), docs, raw).value == Some([page, page])
  {
    AddIsSortedInsert(once, docs, raw, page);
    assert Insert([page], page) == [page, page];
  }

  /** Adding the same page twice to an untouched document stores it twice. */
  lemma AddTwiceStoresTwoCopies(st: Store, docs: string, raw: string, page: int)
    requires Visible(st, docs, raw).None?
    ensures var twice := AddBookmark(AddBookmark(st, docs, raw, page), docs, raw, page);
      Bookmarks(twice, docs, raw).value == Some([page, page])
  {
    AddIsSortedInsert(st, docs, raw, page);
    AddToSingleton(AddBookmark(st, docs, raw, page), docs, raw, page);
  }

  // ---- removing ----

  /** What a document reads after a removal: the first copy of the page gone, if there was one. */
  lemma VisibleAfterRemove(st: Store, docs: string, raw: string, page: int)
    ensures var r := RemoveBookmark(st, docs, raw, page);
      && Migrated(r, docs, raw)
      && Visible(r, docs, raw) == match Visible(st, docs, raw)
           case None => None
           case Some(s) => Some(match FirstIndex(s, page)
                                case None => s
                                case Some(i) => RemoveAt(s, i))
  {
    MigratedLookupIsVisible(st, docs, raw);
  }

  /**
   Removing `page` from a sorted list holding `before`'s pages and one more
   copy of `page` gives back `before`, when `before` is sorted.
   */
  lemma RemoveUndoesSortedAdd(added: Store, docs: string, raw: string, page: int, before: seq<int>)
    requires Visible(added, docs, raw).Some? && Sorted(Visible(added, docs, raw).value)
    requires multiset(Visible(added, docs, raw).value) == multiset(before) + multiset{page}
    requires Sorted(before)
    ensures Bookmarks(RemoveBookmark(added, docs, raw, page), docs, raw).value == Some(before)
  {
    var s := Visible(added, docs, raw).value;
    assert page in multiset(s);
    var i := FirstIndex(s, page).value;
    var r := RemoveBookmark(added, docs, raw, page);
    VisibleAfterRemove(added, docs, raw, page);
    RemoveAtKeepsOrder(s, i);
    SortedPermutationIsUnique(RemoveAt(s, i), before);
  }

  /**
   Removing a page just added restores a sorted list exactly; an untouched
   document is left with an empty entry, not with no entry.
   */
  lemma AddThenRemoveRestores(st: Store, docs: string, raw: string, page: int)
    requires Visible(st, docs, raw).None? || Sorted(Visible(st, docs, raw).value)
    ensures var r := RemoveBookmark(AddBookmark(st, docs, raw, page), docs, raw, page);
      Bookmarks(r, docs, raw).value == Some(Visible(st, docs, raw).GetOr([]))
  {
    VisibleAfterAdd(st, docs, raw, page);
    RemoveUndoesSortedAdd(AddBookmark(st, docs, raw, page), docs, raw, page, Visible(st, docs, raw).GetOr([]));
  }

  /** After a removal the page is gone unless the list held it more than once. */
  lemma RemoveThenHasNot(st: Store, docs: string, raw: string, page: int)
    requires multiset(Visible(st, docs, raw).GetOr([]))[page] <= 1
    ensures !HasBookmark(RemoveBookmark(st, docs, raw, page), docs, raw, page).value
  {
    VisibleAfterRemove(st, docs, raw, page);
    match Visible(st, docs, raw)
    case None =>
    case Some(s) =>
      match FirstIndex(s, page)
      case None =>
      case Some(i) => assert multiset(RemoveAt(s, i))[page] == 0;
  }

  // ---- the sorted-store invariant ----

  /** Every entry of the store is in ascending order. */
  predicate AllSorted(st: Store) {
    forall k :: k in st ==> Sorted(st[k])
  }

  /** Migration keeps every entry in ascending order. */
  lemma MigrationKeepsStoreSorted(st: Store, docs: string, raw: string)
    requires AllSorted(st)
    ensures AllSorted(MigrateLegacyBookmarks(st, docs, raw))
  {
    var m := MigrateLegacyBookmarks(st, docs, raw);
    forall k | k in m
      ensures Sorted(m[k])
    {
      var key := TrimDocumentsPath(docs, raw);
      if k != key {
        assert k in m - {key};
        assert k in st - {raw, key};
        assert m[k] == (m - {key})[k] == (st - {raw, key})[k];
      }
    }
  }

  /** Adding and removing keep every entry in ascending order. */
  lemma UpdatesKeepStoreSorted(st: Store, docs: string, raw: string, page: int)
    requires AllSorted(st)
    ensures AllSorted(AddBookmark(st, docs, raw, page))
    ensures AllSorted(RemoveBookmark(st, docs, raw, page))
  {
    var m := MigrateLegacyBookmarks(st, docs, raw);
    MigrationKeepsStoreSorted(st, docs, raw);
    var key := TrimDocumentsPath(docs, raw);
    assert AllSorted(m[key := SortedWith(Lookup(m, key).GetOr([]), page)]);
    if key in m {
      match FirstIndex(m[key], page)
      case None =>
      case Some(i) =>
        RemoveAtKeepsOrder(m[key], i);
        assert AllSorted(m[key := RemoveAt(m[key], i)]);
    }
  }

  // ---- a session on one document ----

  /** Reads do not change a store that is already migrated for the document. */
  lemma ReadsOfMigratedStore(st: Store, docs: string, raw: string, page: int)
    requires Migrated(st, docs, raw)
    ensures HasBookmark(st, docs, raw, page).store == st
    ensures Bookmarks(st, docs, raw).store == st
  {
    MigrationSettles(st, docs, raw);
  }

  /** Adding 3 to a document reading [10] gives [3, 10]. */
  lemma AddThreeToTen(s1: Store, docs: string, raw: string)
    requires Visible(s1, docs, raw) == Some([10])
    ensures var s2 := AddBookmark(s1, docs, raw, 3);
      Migrated(s2, docs, raw) && Visible(s2, docs, raw) == Some([3, 10])
  {
    AddIsSortedInsert(s1, docs, raw, 3);
    assert Insert([10], 3) == [3, 10];
    UpdatesLeaveStoreMigrated(s1, docs, raw, 3);
  }

  /** Adding 10 and then 3 to an untouched document gives the list [3, 10]. */
  lemma AddTenThenThree(st: Store, docs: string, raw: string)
    requires Visible(st, docs, raw).None?
    ensures var s2 := AddBookmark(AddBookmark(st, docs, raw, 10), docs, raw, 3);
      Migrated(s2, docs, raw) && Visible(s2, docs, raw) == Some([3, 10])
  {
    AddIsSortedInsert(st, docs, raw, 10);
    AddThreeToTen(AddBookmark(st, docs, raw, 10), docs, raw);
  }

  /** Reading [3, 10] shows page 3; removing 10 leaves [3]. */
  lemma ReadThenRemoveTen(s2: Store, docs: string, raw: string)
    requires Migrated(s2, docs, raw) && Visible(s2, docs, raw) == Some([3, 10])
    ensures var has := HasBookmark(s2, docs, raw, 3);
      var listed := Bookmarks(has.store, docs, raw);
      var s3 := RemoveBookmark(listed.store, docs, raw, 10);
      && has.value
      && listed.value == Some([3, 10])
      && Bookmarks(s3, docs, raw).value == Some([3])
  {
    ReadsOfMigratedStore(s2, docs, raw, 3);
    VisibleAfterRemove(s2, docs, raw, 10);
    assert FirstIndex([3, 10], 10) == Some(1);
    assert RemoveAt([3, 10], 1) == [3];
  }

  /**
   On an untouched document: add 10, add 3; page 3 is bookmarked and the
   list reads [3, 10]; remove 10 and it reads [3].
   */
  lemma SessionOnUntouchedDocument(st: Store, docs: string, raw: string)
    requires Visible(st, docs, raw).None?
    ensures var s2 := AddBookmark(AddBookmark(st, docs, raw, 10), docs, raw, 3);
      var has := HasBookmark(s2, docs, raw, 3);
      var listed := Bookmarks(has.store, docs, raw);
      var s3 := RemoveBookmark(listed.store, docs, raw, 10);
      && has.value
      && listed.value == Some([3, 10])
      && Bookmarks(s3, docs, raw).value == Some([3])
  {
    AddTenThenThree(st, docs, raw);
    ReadThenRemoveTen(AddBookmark(AddBookmark(st, docs, raw, 10), docs, raw, 3), docs, raw);
  }

  /** A document never touched reads as no entry, distinct from an emptied one. */
  lemma UntouchedDiffersFromEmptied(st: Store, docs: string, raw: string, page: int)
    requires Visible(st, docs, raw).None?
    ensures Bookmarks(st, docs, raw).value == None
    ensures Bookmarks(RemoveBookmark(AddBookmark(st, docs, raw, page), docs, raw, page), docs, raw).value
         == Some([])
  {
    AddThenRemoveRestores(st, docs, raw, page);
  }
}
