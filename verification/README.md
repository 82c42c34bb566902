# Bookmark store of the BookReader PDF reading screen

This project models `BookmarksProvider`, the bookmark store of the BookReader
PDF reading screen, and proves properties of the model in Dafny. The store
keeps, for each document, a list of bookmarked page indices. The list lives
in the platform's persistent settings store, under a key derived from the
document's location string. Older versions keyed entries by the full
location string. Every operation therefore first moves such a legacy entry
to the current key.

The model is functional:

- The settings store is a value `Store = map<string, seq<int>>`. A missing key means "no entry".
- The documents directory path `docs` is a parameter. So is the document's location string `raw`, the URL's absolute string.
- Each public operation (`HasBookmark`, `AddBookmark`, `RemoveBookmark`, `Bookmarks`) is a pure function. It returns the new store, plus its answer where it has one.
- `TrimDocumentsPath` removes every occurrence of `docs + "/"` from the location string, scanning left to right without overlaps (`Text.ReplaceAll`).
- `MigrateLegacyBookmarks` moves an entry from `raw` to the trimmed key, overwriting whatever that key held.
- `Visible` is an independent reference definition: the list a document presents, read off the store before migration. The operations' contracts are stated against it.

Modules:

- `Optional`: the `Option` type.
- `Text`: replacement of every occurrence of a pattern.
- `Pages`: the list operations the store uses: `sorted()`, `firstIndex(of:)` and `remove(at:)`.
- `BookmarksProvider`: the store and its operations.
- `BookmarkLaws`: lemmas that relate the operations to each other.
- `BookmarkToggle`: the reading screen's bookmark button (`addOrRemoveBookmark`), a client of the store.

Three behaviours of the code differ from a clean "set of pages per document" reading. The model keeps them:

- Adding does not deduplicate. `addBookmark` stores `(bookmarks + [pageIndex]).sorted()`, so adding a page twice keeps two copies (`AddKeepsRepeats`, `AddTwiceStoresTwoCopies`). A list stays a set of pages only when it is changed through the bookmark button (`ToggleKeepsPageSet`).
- The key is not produced by stripping a prefix. `replacingOccurrences` removes the directory path wherever it occurs. A file URL's absolute string starts with `file://`, so the key of `file:///<docs>/book.pdf` is `file://book.pdf`, not `book.pdf` (`TrimFileUrl`, `MigrationOfFileUrl`).
- "Add then remove leaves the page unbookmarked" holds only when the page was not already in the list (`RemoveThenHasNot` asks for at most one copy).

## Model

| member | source | states |
|---|---|---|
| Text.ReplaceAll | BookmarksProvider.swift:70 | removing occurrences never lengthens the string |
| Text.ReplaceAllChangesIffOccurs | BookmarksProvider.swift:70 | the string comes back unchanged exactly when the pattern does not occur in it; otherwise it shrinks by at least the pattern's length |
| Text.ReplaceAllKeepsClearPrefix | BookmarksProvider.swift:70 | a prefix where no match starts is kept verbatim, and only the rest is rewritten |
| BookmarksProvider.TrimDocumentsPath | BookmarksProvider.swift:69-72 | the key is never longer than the location string |
| BookmarkLaws.TrimIsIdentityIffNoDocumentsPath | BookmarksProvider.swift:69-72 | the key equals the location string if and only if `docs + "/"` does not occur in it |
| BookmarkLaws.TrimStripsLeadingDocumentsPath | BookmarksProvider.swift:69-72 | a location starting with `docs + "/"` loses that prefix; with no further occurrence the key is the remainder |
| BookmarkLaws.TrimFileUrl | BookmarksProvider.swift:69-72 | for an absolute directory path, the key of `file://` + docs + `/` + name is `file://` + name: the scheme stays |
| BookmarksProvider.MigrateLegacyBookmarks | BookmarksProvider.swift:61-67 | without a raw-key entry the store is unchanged; with one, the trimmed key gets the raw key's list, overwriting its old value; the raw key is gone unless it equals the trimmed key; all other keys are as before |
| BookmarkLaws.MigrationSettles | BookmarksProvider.swift:61-67 | after migration no legacy entry remains, and a store without one is left exactly as it is |
| BookmarkLaws.MigrationIsIdempotent | BookmarksProvider.swift:61-67 | migrating twice gives the same store as migrating once |
| BookmarkLaws.VisibleAfterMigration | BookmarksProvider.swift:61-67 | migration does not change the list a document presents |
| BookmarkLaws.MigrationOfFileUrl | BookmarksProvider.swift:53-67 | a legacy entry under a file URL is reported intact by the first read and afterwards sits only under `file://` + name |
| BookmarksProvider.MigratedLookupIsVisible | BookmarksProvider.swift:25 | reading the trimmed key after migration gives the raw key's legacy list if there is one, else the trimmed key's entry |
| BookmarksProvider.Bookmarks | BookmarksProvider.swift:53-57 | the store is migrated; the answer is the legacy list, else the trimmed key's list, else no entry |
| BookmarksProvider.HasBookmark | BookmarksProvider.swift:22-30 | the store is migrated; the answer is false with no entry, and otherwise whether the page is in the document's list |
| BookmarksProvider.AddBookmark | BookmarksProvider.swift:32-38 | the trimmed key holds an ascending permutation of the old list (empty if missing) plus the page, one element longer; every other key apart from the migrated raw key is unchanged |
| BookmarksProvider.RemoveBookmark | BookmarksProvider.swift:40-51 | with no entry or no copy of the page only the migration happens, and no entry is created; otherwise the first copy of the page is removed and the list written back, one shorter; every other key is unchanged |
| Pages.Sort | BookmarksProvider.swift:37 | `sorted()` yields an ascending permutation of its input of the same length |
| Pages.SortedWith | BookmarksProvider.swift:37 | appending then sorting gives an ascending list with the old pages and one more copy of the new page |
| Pages.Insert | BookmarksProvider.swift:37 | inserting into an ascending list keeps it ascending and adds exactly that element |
| Pages.SortedPermutationIsUnique | BookmarksProvider.swift:37 | two ascending lists with the same elements are equal, so any correct `sorted()` gives the model's result |
| Pages.FirstIndex | BookmarksProvider.swift:45 | `firstIndex(of:)` is absent exactly when the value is absent; otherwise it is the position of the first copy |
| Pages.RemoveAt | BookmarksProvider.swift:49 | `remove(at:)` drops exactly the element at that position and keeps the others in order |
| Pages.RemoveAtKeepsOrder | BookmarksProvider.swift:45-50 | removing from an ascending (strictly ascending) list keeps it ascending (strictly ascending) |
| BookmarkLaws.OtherDocumentsUntouched | BookmarksProvider.swift:32-51 | adding and removing leave the entry of every key other than the raw and trimmed keys as it was |
| BookmarkLaws.UpdatesLeaveStoreMigrated | BookmarksProvider.swift:32-51 | after an add or a removal no legacy entry for the document remains |
| BookmarkLaws.VisibleAfterAdd | BookmarksProvider.swift:32-38 | after an add the document presents an ascending list with one more copy of the page |
| BookmarkLaws.AddIsSortedInsert | BookmarksProvider.swift:32-38 | on an ascending list or no entry, an add equals inserting the page at its place |
| BookmarkLaws.AddThenHas | BookmarksProvider.swift:22-38 | after adding a page the document has it bookmarked |
| BookmarkLaws.AddKeepsRepeats | BookmarksProvider.swift:32-38 | each add raises the page's count in the list by one: no deduplication |
| BookmarkLaws.AddTwiceStoresTwoCopies | BookmarksProvider.swift:32-38 | adding a page twice to an untouched document lists it twice |
| BookmarkLaws.VisibleAfterRemove | BookmarksProvider.swift:40-51 | after a removal the document presents its list without the first copy of the page; a missing entry stays missing |
| BookmarkLaws.AddThenRemoveRestores | BookmarksProvider.swift:32-57 | removing a page just added gives back an ascending list exactly; an untouched document ends with an empty entry |
| BookmarkLaws.RemoveThenHasNot | BookmarksProvider.swift:22-51 | after a removal the page is no longer bookmarked if the list held it at most once |
| BookmarkLaws.MigrationKeepsStoreSorted | BookmarksProvider.swift:61-67 | migration keeps every entry of an all-ascending store ascending |
| BookmarkLaws.UpdatesKeepStoreSorted | BookmarksProvider.swift:32-51 | adding and removing keep every entry of an all-ascending store ascending |
| BookmarkLaws.ReadsOfMigratedStore | BookmarksProvider.swift:22-30 | the reads do not change a store that holds no legacy entry for the document |
| BookmarkLaws.SessionOnUntouchedDocument | BookmarksProvider.swift:22-57 | add 10, add 3: page 3 is bookmarked and the list is [3, 10]; remove 10: the list is [3] |
| BookmarkLaws.UntouchedDiffersFromEmptied | BookmarksProvider.swift:45-57 | a never-touched document reads as no entry; after adding and removing one page it reads as an empty list |
| BookmarkToggle.AddOrRemoveBookmark | BookReader/Classes/BookViewController.swift:299-311 | the button leaves no legacy entry and changes no other key |
| BookmarkToggle.ToggleChangesOneCopy | BookReader/Classes/BookViewController.swift:299-311 | a bookmarked page loses one copy and an unbookmarked page gains one |
| BookmarkToggle.ToggleFlips | BookReader/Classes/BookViewController.swift:299-311 | with at most one copy of the page, the button flips whether it is bookmarked |
| BookmarkToggle.ToggleKeepsPageSet | BookReader/Classes/BookViewController.swift:299-311 | on a strictly ascending list or no entry, the button leaves a strictly ascending list |
| BookmarkToggle.ToggleTwiceRestores | BookReader/Classes/BookViewController.swift:299-311 | pressing the button twice on a page set gives the list back (an empty list for an untouched document) |

## Left out

- The platform settings store itself (`UserDefaults.standard`), which is persistent and process-wide. It is an explicit map value here.
- The `as? [Int]` cast failing when a key holds something other than an integer array. Such a key reads as "no entry" in the source. In the model every value is an integer list.
- Finding the documents directory and resolving its symbolic links (BookmarksProvider.swift:74-77). The directory path is the parameter `docs`.
- Building the URL and its absolute string. The location string is the parameter `raw`.
- Swift's string matching on grapheme clusters and its Unicode equivalence. The model compares characters one by one.
- Swift's 64-bit `Int`. No arithmetic is done on page indices, so unbounded integers lose nothing.
- Swift's own sort algorithm. The model uses insertion sort; `SortedPermutationIsUnique` shows that any correct sort stores the same list.
- Concurrent callers. The store is used from one thread.
- The rest of the reading screen in BookViewController.swift: view lifecycle, bar animation, popovers, search, outline, thumbnails, mail, printing, page labels and the gesture recognizer. It is presentation code with no data logic.
- In the bookmark button, the early return when there is no document URL or current page, and the icon update.
- BookmarkToggle.AddOrRemoveBookmark: its own contract states only the frame and the absence of a legacy entry. The change to the list is stated by the lemmas after it.
