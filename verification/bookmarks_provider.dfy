/**
 The bookmark store of the PDF reader. The platform settings store is an
 explicit value `Store`; each public operation takes it, the documents
 directory path `docs` and the document's location string `raw` (its URL's
 absolute string), and returns its answer together with the new store.
 Every operation first moves a legacy entry kept under `raw` to the trimmed
 key, then works on the trimmed key.
 */
module BookmarksProvider {
  import opened Optional
  import opened Text
  import opened Pages

  /** The settings store: a key maps to its page list; a missing key is "no entry". */
  type Store = map<string, seq<int>>

  /** An answer together with the store the operation leaves behind. */
  datatype Reply<T> = Reply(store: Store, value: T)

  /** The entry stored under `key`, if any. */
  function Lookup(st: Store, key: string): Option<seq<int>> {
    if key in st then Some(st[key]) else None
  }

  /**
   The storage key of a document: its location string with every occurrence
   of the documents directory path followed by "/" removed.
   */
  function TrimDocumentsPath(docs: string, path: string): (key: string)
    ensures |key| <= |path|
  {
    ReplaceAll(path, docs + "/")
  }

  /**
   Moves an entry kept under the untrimmed location string to the trimmed
   key, overwriting whatever the trimmed key held; no entry, no change.
   */
  function MigrateLegacyBookmarks(st: Store, docs: string, raw: string): (r: Store)
    ensures raw !in st ==> r == st
    ensures raw in st ==> TrimDocumentsPath(docs, raw) in r && r[TrimDocumentsPath(docs, raw)] == st[raw]
    ensures raw in st && TrimDocumentsPath(docs, raw) != raw ==> raw !in r
    ensures r - {TrimDocumentsPath(docs, raw)} == st - {raw, TrimDocumentsPath(docs, raw)}
  {
    if raw in st then
      (st - {raw})[TrimDocumentsPath(docs, raw) := st[raw]]
    else
      st
  }

  /**
   The list a document presents to its next operation, read off the store
   before migration: a legacy entry under the location string takes
   precedence over the trimmed key's entry.
   */
  function Visible(st: Store, docs: string, raw: string): Option<seq<int>> {
    if raw in st then Some(st[raw]) else Lookup(st, TrimDocumentsPath(docs, raw))
  }

  /** Reading the trimmed key after migration sees exactly `Visible`. */
  lemma MigratedLookupIsVisible(st: Store, docs: string, raw: string)
    ensures Lookup(MigrateLegacyBookmarks(st, docs, raw), TrimDocumentsPath(docs, raw)) == Visible(st, docs, raw)
  {
  }

  /** `bookmarks(for:)`: the document's list, or no entry. */
  function Bookmarks(st: Store, docs: string, raw: string): (r: Reply<Option<seq<int>>>)
    ensures r.store == MigrateLegacyBookmarks(st, docs, raw)
    ensures r.value == Visible(st, docs, raw)
  {
    var m := MigrateLegacyBookmarks(st, docs, raw);
    Reply(m, Lookup(m, TrimDocumentsPath(docs, raw)))
  }

  /** `hasBookmark(for:pageIndex:)`: false without an entry, else membership. */
  function HasBookmark(st: Store, docs: string, raw: string, page: int): (r: Reply<bool>)
    ensures r.store == MigrateLegacyBookmarks(st, docs, raw)
    ensures r.value <==> Visible(st, docs, raw).Some? && page in Visible(st, docs, raw).value
  {
    var m := MigrateLegacyBookmarks(st, docs, raw);
    var key := TrimDocumentsPath(docs, raw);
    if key !in m then Reply(m, false) else Reply(m, page in m[key])
  }

  /**
   `addBookmark(for:pageIndex:)`: appends the page to the list (a missing
   entry reads as empty) and stores the sorted result. Repeats are kept.
   */
  function AddBookmark(st: Store, docs: string, raw: string, page: int): (r: Store)
    ensures TrimDocumentsPath(docs, raw) in r
    ensures Sorted(r[TrimDocumentsPath(docs, raw)])
    ensures multiset(r[TrimDocumentsPath(docs, raw)])
         == multiset(Visible(st, docs, raw).GetOr([])) + multiset{page}
    ensures |r[TrimDocumentsPath(docs, raw)]| == |Visible(st, docs, raw).GetOr([])| + 1
    ensures TrimDocumentsPath(docs, raw) != raw ==> raw !in r
    ensures r - {TrimDocumentsPath(docs, raw)} == st - {raw, TrimDocumentsPath(docs, raw)}
  {
    var m := MigrateLegacyBookmarks(st, docs, raw);
    var key := TrimDocumentsPath(docs, raw);
    var bookmarks := Lookup(m, key).GetOr([]);
    MigratedLookupIsVisible(st, docs, raw);
    var sorted := SortedWith(bookmarks, page);
    assert m[key := sorted] - {key} == m - {key};
    m[key := sorted]
  }

  /**
   `removeBookmark(for:pageIndex:)`: deletes the first occurrence of the
   page and writes the list back; with no entry or no such page nothing is
   written.
   */
  function RemoveBookmark(st: Store, docs: string, raw: string, page: int): (r: Store)
    ensures var v := Visible(st, docs, raw);
      v.None? || page !in v.value ==> r == MigrateLegacyBookmarks(st, docs, raw)
    ensures Visible(st, docs, raw).None? ==> TrimDocumentsPath(docs, raw) !in r
    ensures var v := Visible(st, docs, raw); var key := TrimDocumentsPath(docs, raw);
      v.Some? && page in v.value ==>
        && key in r
        && |r[key]| == |v.value| - 1
        && multiset(r[key]) == multiset(v.value) - multiset{page}
        && exists i :: 0 <= i < |v.value| && v.value[i] == page && page !in v.value[..i]
                       && r[key] == v.value[..i] + v.value[i + 1..]
    ensures TrimDocumentsPath(docs, raw) != raw ==> raw !in r
    ensures r - {TrimDocumentsPath(docs, raw)} == st - {raw, TrimDocumentsPath(docs, raw)}
  {
    var m := MigrateLegacyBookmarks(st, docs, raw);
    var key := TrimDocumentsPath(docs, raw);
    MigratedLookupIsVisible(st, docs, raw);
    if key !in m then m
    else
      var bookmarks := m[key];
      match FirstIndex(bookmarks, page)
      case None => m
      case Some(index) =>
        var rest := RemoveAt(bookmarks, index);
        assert rest == bookmarks[..index] + bookmarks[index + 1..];
        m[key := rest]
  }
}
