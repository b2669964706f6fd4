# Hentoid library bookkeeping, modelled in Dafny

This project models the list, paging and bookkeeping logic around Hentoid's
library database, and proves properties about it. Hentoid is an Android
manga/doujinshi library app. The model covers four parts of the app:

- **The DAO** (`ObjectBoxDAO`):
  - the download queue, whose ranks are kept at exactly 1..N;
  - where a new download enters the queue;
  - auto-numbered orders for groups, group items and bookmarks;
  - group covers kept consistent when group items are inserted or deleted;
  - the search history, capped at a limit and evicting the oldest entry first;
  - the in-memory part of group listing: the download-date and "ungrouped" enrichment, the sorts by child count and by latest child download date;
  - how a paged book list is configured: data source, reported total, initial load size;
  - the faceted attribute listing and counts.
- **The library screen in paged mode** (`LibraryContentFragment`):
  - shelf bounds, the page count, and stepping back a page when the last shelf empties;
  - the sort menu → field code → label mappings;
  - the position bookkeeping fields;
  - the sort settings written when leaving edit mode.
- **The bulk metadata editor** (`MetadataEditViewModel`):
  - loading the selected books and counting attribute occurrences;
  - adding or removing an attribute on every selected book;
  - setting the title;
  - choosing the cover page.
- **The legacy search task** (`SearchContent`): its NON_INIT/INIT/DONE/READY/FAILED state machine and how it reports to its listener.

## Layout

| file | module | contents |
|---|---|---|
| `domain.dfy` | `Domain` | entities: `Content`, `Attribute`, `ImageFile`, sort fields; `MaxOf`, `CeilDiv`, `RemoveFirst` and arithmetic lemmas |
| `queue.dfy` | `Queue` | queue records, insertion and renumbering, target rank |
| `group_listing.dfy` | `GroupListing` | groups and group items, cover clearing, enrichment, derived sorts |
| `content_paging.dfy` | `ContentPaging` | paged list configuration, attribute search and counts |
| `objectbox_dao.dfy` | `ObjectBoxDao` | the `Dao` class over its tables: queueing, history, inserts and deletes |
| `library_content_fragment.dfy` | `LibraryShelf` | shelves, menu mappings, the `LibraryContentFragment` class |
| `metadata_edit_view_model.dfy` | `MetadataEdit` | the `MetadataEditViewModel` class and its specification functions |
| `search_content.dfy` | `Search` | the `SearchContent` class and its state machine |

Entities are values. A reference between entities is an id, and 0 means "no target", as an ObjectBox `ToOne` does. Objects whose fields the source updates in place are classes: `Dao`, `LibraryContentFragment`, `MetadataEditViewModel` and `SearchContent`.

The loops of the source, and the recursion of `loadBookshelf`, are `while` loops proved against specification functions:
- `InsertQueueAndRenumber` against `QueueAfterInsert`;
- `InsertSearchRecord` against `HistoryAfterInsert`;
- `ClearCovers` (the loop of `DeleteGroupItems`) against `ClearedCovers`;
- `PagedAttributeSearch` against its concatenation and sum of the per-type pages;
- `LoadBookshelf` (recursion in the source, stepping back one page per call) against `PageCount`, `ShelfBound` and `SettledPage`;
- `LoadContent` against `AttributeCounts` of `AllAttributes`;
- `SetCover` against `WithCover`;
- `SetAttr` against `EditedAttributes`/`RemoveEntry`;
- `SetTitle` against the title update of every book.

Answers from the store are inputs, often as function-typed parameters. This covers query counts, id lists, the shuffled order, attribute pages, books in a download-date range, and the two `SearchContent` selections. Preference values are parameters or fields.

## Model

Source cells are paths relative to the repository root.

| member | source | states |
|---|---|---|
| Domain.MaxOf | app/src/main/java/me/devsaki/hentoid/database/ObjectBoxDAO.java:744 | the store's max query: one of the values, bounding all of them, 0 for an empty list |
| Domain.CeilDiv | app/src/main/java/me/devsaki/hentoid/database/ObjectBoxDAO.java:262 | the integer ceiling of `a/b`: `r*b >= a` and `r*b < a+b` |
| Domain.RemoveFirstKeepsOrder | app/src/main/java/me/devsaki/hentoid/viewmodels/MetadataEditViewModel.kt:189 | `List.remove(Object)` removes only the first occurrence; what comes before it and after it stays, in order |
| Domain.IndexOfPrefix | app/src/main/java/me/devsaki/hentoid/viewmodels/MetadataEditViewModel.kt:84 | the first occurrence of an element found in a prefix is the one in that prefix |
| Domain.RemoveFirstMultiset | app/src/main/java/me/devsaki/hentoid/viewmodels/MetadataEditViewModel.kt:189 | exactly one occurrence is removed and nothing else |
| Queue.QueueAfterInsert | app/src/main/java/me/devsaki/hentoid/database/ObjectBoxDAO.java:752-766 | N+1 records, ranks exactly 1..N+1 in list order, new book at index `min(order, N+1)-1`, old books keep their relative order |
| Queue.InsertQueueAndRenumber | app/src/main/java/me/devsaki/hentoid/database/ObjectBoxDAO.java:752-766 | the insert-then-renumber loop produces exactly `QueueAfterInsert` |
| Queue.TargetRank | app/src/main/java/me/devsaki/hentoid/database/ObjectBoxDAO.java:742-747 | bottom: the max queue order plus 1 (so above every rank, and 1 on an empty queue); top: 2 while the queue is active, 1 otherwise |
| Queue.InsertIndex | app/src/main/java/me/devsaki/hentoid/database/ObjectBoxDAO.java:757-760 | the record lands at list index `order - 1` when that is inside the queue, and last exactly when `order` exceeds the queue length |
| Queue.MaxRankIsLength | app/src/main/java/me/devsaki/hentoid/database/ObjectBoxDAO.java:744 | on a queue ranked 1..N the max queue order is N |
| Queue.TargetIndexOf | app/src/main/java/me/devsaki/hentoid/database/ObjectBoxDAO.java:741-748 | the new book lands last (bottom), second below the running download (top, active, non-empty queue), or first |
| Queue.InsertBelowActiveDownload | app/src/main/java/me/devsaki/hentoid/database/ObjectBoxDAO.java:746-747 | a two-book active queue gets a top insertion at index 1, ranks 1..3 |
| GroupListing.ClearedCovers | app/src/main/java/me/devsaki/hentoid/database/ObjectBoxDAO.java:610-621 | no group keeps a resolved cover equal to one of its deleted items' book; covers are only cleared, only when hit; nothing else changes |
| GroupListing.ClearedCoversStep | app/src/main/java/me/devsaki/hentoid/database/ObjectBoxDAO.java:613-618 | handling the deleted items one at a time, as the loop does, composes to `ClearedCovers` |
| GroupListing.ClearCoverFor | app/src/main/java/me/devsaki/hentoid/database/ObjectBoxDAO.java:613-618 | one deleted item clears its own group's cover exactly when that cover is resolved and is the item's book; afterwards that group has no resolved cover on that book; nothing else changes |
| GroupListing.EnrichGroupWithItemsByDlDate | app/src/main/java/me/devsaki/hentoid/database/ObjectBoxDAO.java:515-521 | items are the in-range books, unranked, in store order; the first one is the cover; only items and cover change |
| GroupListing.EnrichUngroupedWithItems | app/src/main/java/me/devsaki/hentoid/database/ObjectBoxDAO.java:523-530 | only the custom group of subtype 1 receives one unranked item per ungrouped book; other groups are unchanged |
| GroupListing.EnrichedGroups | app/src/main/java/me/devsaki/hentoid/database/ObjectBoxDAO.java:467-488 | each group enriched according to the grouping, same ids and groupings, same count |
| GroupListing.ChildDates | app/src/main/java/me/devsaki/hentoid/database/ObjectBoxDAO.java:534-536 | at most one date per child, exactly one per child when every child's book is stored |
| GroupListing.ChildDatesMembers | app/src/main/java/me/devsaki/hentoid/database/ObjectBoxDAO.java:534-536 | a date is a child date iff some child still in the store has it |
| GroupListing.MaxChildDate | app/src/main/java/me/devsaki/hentoid/database/ObjectBoxDAO.java:536-537 | the max child date bounds every stored child and is one of their dates; 0 without children |
| GroupListing.LatestDlDate | app/src/main/java/me/devsaki/hentoid/database/ObjectBoxDAO.java:532-540 | latest download date among stored children, 0 when there is none |
| GroupListing.InsertByKeyPermutes | app/src/main/java/me/devsaki/hentoid/database/ObjectBoxDAO.java:495 | inserting into the sorted prefix adds exactly that group |
| GroupListing.InsertByKeySorted | app/src/main/java/me/devsaki/hentoid/database/ObjectBoxDAO.java:495 | inserting keeps the list sorted by key |
| GroupListing.SortByKey | app/src/main/java/me/devsaki/hentoid/database/ObjectBoxDAO.java:495 | `sortBy`: a permutation, sorted by ascending key |
| GroupListing.SortByChildrenCount | app/src/main/java/me/devsaki/hentoid/database/ObjectBoxDAO.java:490-499 | a permutation ordered by number of items, ascending or descending |
| GroupListing.SortByLatestDlDate | app/src/main/java/me/devsaki/hentoid/database/ObjectBoxDAO.java:501-510 | a permutation ordered by latest child download date, ascending or descending |
| GroupListing.SelectGroupsLive | app/src/main/java/me/devsaki/hentoid/database/ObjectBoxDAO.java:453-513 | the enriched groups, reordered for the two derived fields, in store order otherwise |
| ContentPaging.InitialLoad | app/src/main/java/me/devsaki/hentoid/database/ObjectBoxDAO.java:257-263 | load-all: a multiple of the page size, at least the total, less than total + page size; otherwise two pages |
| ContentPaging.GetPagedContent | app/src/main/java/me/devsaki/hentoid/database/ObjectBoxDAO.java:245-301 | custom order iff predetermined id list (total = its length), random iff shuffled ids, native query otherwise (total = query count); placeholders off iff load-all; initial load as `InitialLoad` |
| ContentPaging.PagedContentByQuery | app/src/main/java/me/devsaki/hentoid/database/ObjectBoxDAO.java:269-286 | the universal or search query's count; shuffled ids exactly for the random order, served natively otherwise |
| ContentPaging.PagedContentByList | app/src/main/java/me/devsaki/hentoid/database/ObjectBoxDAO.java:288-301 | the universal or search id list by group item, counted by its length |
| ContentPaging.PagedAttributeSearch | app/src/main/java/me/devsaki/hentoid/database/ObjectBoxDAO.java:779-807 | no types: empty, 0; sources first: the sources, counted; else per-type pages concatenated in type order and counts summed |
| ContentPaging.TypeOrderAppend | app/src/main/java/me/devsaki/hentoid/database/ObjectBoxDAO.java:797-801 | the per-type pages and totals work type by type: over `a + b` they are those over `a` followed by (added to) those over `b` |
| ContentPaging.CountAttributes | app/src/main/java/me/devsaki/hentoid/database/ObjectBoxDAO.java:809-823 | whole-library or filtered per-type counts, with the source count overridden by the number of available sources in the same scope |
| ObjectBoxDao.MaxOrderWhere | app/src/main/java/me/devsaki/hentoid/database/ObjectBoxDAO.java:556 | the max order in scope: bounds every element in scope, is one of their orders, 0 on an empty scope |
| ObjectBoxDao.AutoNumbered | app/src/main/java/me/devsaki/hentoid/database/ObjectBoxDAO.java:588-591 | a given order is kept; -1 becomes max+1: above every order in scope, 1 on an empty scope |
| ObjectBoxDao.HistoryAfterInsert | app/src/main/java/me/devsaki/hentoid/database/ObjectBoxDAO.java:913-923 | present: unchanged; else at most `limit` records, the new one last, preceded by the newest old records; no eviction below the limit |
| ObjectBoxDao.HistoryInsertIdempotent | app/src/main/java/me/devsaki/hentoid/database/ObjectBoxDAO.java:915 | inserting the same record twice equals inserting it once |
| ObjectBoxDao.HistoryStaysBounded | app/src/main/java/me/devsaki/hentoid/database/ObjectBoxDAO.java:913-923 | a history within the limit and without duplicates stays so |
| ObjectBoxDao.CoverOnInsert | app/src/main/java/me/devsaki/hentoid/database/ObjectBoxDAO.java:593-596 | a group without a resolved cover takes the item's book (so it is resolved when the book is stored); a resolved cover is kept; nothing else changes |
| ObjectBoxDao.Selected | app/src/main/java/me/devsaki/hentoid/database/ObjectBoxDAO.java:612 | exactly the items whose id is requested |
| ObjectBoxDao.Remaining | app/src/main/java/me/devsaki/hentoid/database/ObjectBoxDAO.java:620 | exactly the items whose id is not requested |
| ObjectBoxDao.SelectedAndRemainingSplit | app/src/main/java/me/devsaki/hentoid/database/ObjectBoxDAO.java:610-620 | selected and remaining items partition the table |
| ObjectBoxDao.ClearCovers | app/src/main/java/me/devsaki/hentoid/database/ObjectBoxDAO.java:613-618 | the loop over the selected items, item by item, yields `ClearedCovers` |
| ObjectBoxDao.Dao.AddContentToQueue | app/src/main/java/me/devsaki/hentoid/database/ObjectBoxDAO.java:732-750 | book stored paused, not being deleted, replacement id kept when > -1; queue unchanged if already queued, else `QueueAfterInsert` at `TargetRank`; ranks stay 1..N; the book is queued afterwards |
| ObjectBoxDao.Dao.InsertSearchRecord | app/src/main/java/me/devsaki/hentoid/database/ObjectBoxDAO.java:913-923 | the eviction loop yields `HistoryAfterInsert`; other tables unchanged |
| ObjectBoxDao.Dao.InsertGroup | app/src/main/java/me/devsaki/hentoid/database/ObjectBoxDAO.java:553-558 | appended with its order auto-numbered within its grouping |
| ObjectBoxDao.Dao.InsertGroupItem | app/src/main/java/me/devsaki/hentoid/database/ObjectBoxDAO.java:588-599 | appended with its order auto-numbered within its group; covers by `CoverOnInsert` |
| ObjectBoxDao.Dao.DeleteGroupItems | app/src/main/java/me/devsaki/hentoid/database/ObjectBoxDAO.java:610-621 | with every selected item's group present, covers become `ClearedCovers` of the selected items and the items are removed |
| ObjectBoxDao.Dao.InsertBookmark | app/src/main/java/me/devsaki/hentoid/database/ObjectBoxDAO.java:886-891 | appended with its order auto-numbered within its site |
| LibraryShelf.ShelfBound | app/src/main/java/me/devsaki/hentoid/fragments/library/LibraryContentFragment.java:966-970 | `lo = (shelf-1)*q`, `hi <= size`, `hi - lo <= q`, and a shelf is full unless it reaches the end |
| LibraryShelf.PageCount | app/src/main/java/me/devsaki/hentoid/fragments/library/LibraryContentFragment.java:1113 | the fewest pages of `q` books that hold the library |
| LibraryShelf.ShelfNonEmptyIff | app/src/main/java/me/devsaki/hentoid/fragments/library/LibraryContentFragment.java:984-991 | a shelf is non-empty iff its page is at most the page count |
| LibraryShelf.ShelvesTile | app/src/main/java/me/devsaki/hentoid/fragments/library/LibraryContentFragment.java:966-970 | consecutive shelves abut and the last ends with the library |
| LibraryShelf.NonNull | app/src/main/java/me/devsaki/hentoid/fragments/library/LibraryContentFragment.java:1020 | `withoutNulls`: exactly the books of the non-null slots; nothing from no slot, a single slot gives its book or nothing |
| LibraryShelf.NonNullAppend | app/src/main/java/me/devsaki/hentoid/fragments/library/LibraryContentFragment.java:1020 | filtering is slot by slot: the books of `a + b` are those of `a` then those of `b`, so order and repeats are kept |
| LibraryShelf.SettledPage | app/src/main/java/me/devsaki/hentoid/fragments/library/LibraryContentFragment.java:979-991 | the recursion as written: the page it settles on is not after the start page and has a non-empty shelf |
| LibraryShelf.ZeroQuantityNeverSettles | app/src/main/java/me/devsaki/hentoid/fragments/library/LibraryContentFragment.java:966-970 | with a page quantity of 0 every shelf is `[0, 0)`, so the step back never stops |
| LibraryShelf.PositiveQuantitySettles | app/src/main/java/me/devsaki/hentoid/fragments/library/LibraryContentFragment.java:984-991 | with at least one book per page the step back stops within `page` steps, at `min(page, page count)` |
| LibraryShelf.NameFromFieldCode | app/src/main/java/me/devsaki/hentoid/fragments/library/LibraryContentFragment.java:401-424 | the label is `sort_invalid` exactly for the fields the menu does not offer |
| LibraryShelf.FieldCodeFromMenuId | app/src/main/java/me/devsaki/hentoid/fragments/library/LibraryContentFragment.java:376-399 | unknown menu ids map to the none field and only they do; each item's field has the item's own label |
| LibraryShelf.FieldCodeFromMenuIdInjective | app/src/main/java/me/devsaki/hentoid/fragments/library/LibraryContentFragment.java:376-399 | distinct menu items select distinct fields |
| LibraryShelf.LibraryContentFragment.LoadBookshelf | app/src/main/java/me/devsaki/hentoid/fragments/library/LibraryContentFragment.java:979-1020 | empty library: empty shelf; else page = min(old page, page count), the page `SettledPage` reaches, its bounds are non-empty and inside the library, and the shelf is the non-null books of that range (left alone in endless-scroll mode) |
| LibraryShelf.LibraryContentFragment.OnLibraryChanged | app/src/main/java/me/devsaki/hentoid/fragments/library/LibraryContentFragment.java:1104-1118 | disabled: nothing changes; a new search puts the position on top; endless scroll with a paged adapter and edit mode keep the page and page count, edit mode showing every book; paged mode recounts the pages, resets the page to 1 on a new search, empties the shelf for an empty result and otherwise settles the page and shows its shelf; the list is remembered and the flag consumed |
| LibraryShelf.LibraryContentFragment.RecordMoveFromFirstPos | app/src/main/java/me/devsaki/hentoid/fragments/library/LibraryContentFragment.java:1288-1290 | `itemToRefreshIndex = to` only when `from == 0` |
| LibraryShelf.LibraryContentFragment.RecordMovesFromFirstPos | app/src/main/java/me/devsaki/hentoid/fragments/library/LibraryContentFragment.java:1292-1296 | `itemToRefreshIndex = count - |positions|` only when the first position is 0 |
| LibraryShelf.LibraryContentFragment.OnSaveInstanceState | app/src/main/java/me/devsaki/hentoid/fragments/library/LibraryContentFragment.java:674-678 | saves the current position if > 0 or nothing was pending, else the pending one; then nothing is pending |
| LibraryShelf.LibraryContentFragment.ToggleEditMode | app/src/main/java/me/devsaki/hentoid/fragments/library/LibraryContentFragment.java:426-437 | leaving edit mode: custom field, ascending, custom label, custom-ordered group; entering: settings unchanged |
| LibraryShelf.LibraryContentFragment.RefreshIfNeeded | app/src/main/java/me/devsaki/hentoid/fragments/library/LibraryContentFragment.java:1353-1356 | reload exactly under the custom sort field |
| MetadataEdit.RequestedIds | app/src/main/java/me/devsaki/hentoid/viewmodels/MetadataEditViewModel.kt:79 | exactly the positive ids; nothing from no id, a single id kept iff positive |
| MetadataEdit.RequestedIdsAppend | app/src/main/java/me/devsaki/hentoid/viewmodels/MetadataEditViewModel.kt:79 | `filter` works id by id: the ids kept from `a + b` are those of `a` then those of `b`, so order and repeats are kept |
| MetadataEdit.AllAttributes | app/src/main/java/me/devsaki/hentoid/viewmodels/MetadataEditViewModel.kt:80-83 | an attribute is collected exactly when one of the books has it; nothing from no book, one book gives its own attributes |
| MetadataEdit.AllAttributesAppend | app/src/main/java/me/devsaki/hentoid/viewmodels/MetadataEditViewModel.kt:80-83 | the `addAll` loop works book by book: the attributes of `a + b` are those of `a` then those of `b`, repeats kept, so counts add up across books |
| MetadataEdit.Distinct | app/src/main/java/me/devsaki/hentoid/viewmodels/MetadataEditViewModel.kt:84 | same attributes, each once |
| MetadataEdit.DistinctFirstOccurrenceOrder | app/src/main/java/me/devsaki/hentoid/viewmodels/MetadataEditViewModel.kt:84 | the distinct attributes come in the order of their first occurrence, as the insertion-ordered map of `groupingBy` keeps them |
| MetadataEdit.AttributeCounts | app/src/main/java/me/devsaki/hentoid/viewmodels/MetadataEditViewModel.kt:80-88 | one entry per distinct attribute, in the order of `Distinct`, no duplicates, count = its number of occurrences |
| MetadataEdit.LastMatchIndex | app/src/main/java/me/devsaki/hentoid/viewmodels/MetadataEditViewModel.kt:94-97 | the position of the last page with that order, every later page having another order; -1 exactly when no page has it |
| MetadataEdit.LastMatchingUrl | app/src/main/java/me/devsaki/hentoid/viewmodels/MetadataEditViewModel.kt:94-97 | the url of the last page with that order, unchanged when none |
| MetadataEdit.FlagCover | app/src/main/java/me/devsaki/hentoid/viewmodels/MetadataEditViewModel.kt:94-101 | a page is a cover iff its order matches; nothing else changes |
| MetadataEdit.WithCover | app/src/main/java/me/devsaki/hentoid/viewmodels/MetadataEditViewModel.kt:91-104 | a page is the cover iff its order matches; the cover url is kept when no page matches; nothing but pages and cover url changes |
| MetadataEdit.ExactlyOneCover | app/src/main/java/me/devsaki/hentoid/viewmodels/MetadataEditViewModel.kt:91-104 | with distinct page orders, the chosen page is the only cover and supplies the cover url |
| MetadataEdit.EditedAttributes | app/src/main/java/me/devsaki/hentoid/viewmodels/MetadataEditViewModel.kt:186-190 | without a removal the added attribute is appended last; the length grows by the addition and shrinks by one exactly when the removed attribute is present |
| MetadataEdit.EditedAttributesMultiset | app/src/main/java/me/devsaki/hentoid/viewmodels/MetadataEditViewModel.kt:186-190 | a book's attributes change by the added one and the removed one only |
| MetadataEdit.AddThenRemove | app/src/main/java/me/devsaki/hentoid/viewmodels/MetadataEditViewModel.kt:145-156 | adding then removing an attribute restores the attributes up to order |
| MetadataEdit.EntryIndex | app/src/main/java/me/devsaki/hentoid/viewmodels/MetadataEditViewModel.kt:178 | the first displayed entry for the attribute |
| MetadataEdit.RemoveEntry | app/src/main/java/me/devsaki/hentoid/viewmodels/MetadataEditViewModel.kt:178 | that entry alone is removed, order kept; unchanged when absent |
| MetadataEdit.MetadataEditViewModel.LoadContent | app/src/main/java/me/devsaki/hentoid/viewmodels/MetadataEditViewModel.kt:78-89 | the books of the positive ids, and `AttributeCounts` of all their attributes |
| MetadataEdit.MetadataEditViewModel.SetCover | app/src/main/java/me/devsaki/hentoid/viewmodels/MetadataEditViewModel.kt:91-104 | the selection becomes the first book with the page chosen as cover (`WithCover`); nothing when not loaded |
| MetadataEdit.MetadataEditViewModel.SetAttr | app/src/main/java/me/devsaki/hentoid/viewmodels/MetadataEditViewModel.kt:169-194 | added attribute displayed with the selection size as count, removed one loses its entry; every book gets `EditedAttributes`; length and order kept |
| MetadataEdit.MetadataEditViewModel.AddContentAttribute | app/src/main/java/me/devsaki/hentoid/viewmodels/MetadataEditViewModel.kt:145-147 | the attribute is appended to the display and to every book |
| MetadataEdit.MetadataEditViewModel.RemoveContentAttribute | app/src/main/java/me/devsaki/hentoid/viewmodels/MetadataEditViewModel.kt:154-156 | the attribute's first entry and one occurrence per book go |
| MetadataEdit.MetadataEditViewModel.SetTitle | app/src/main/java/me/devsaki/hentoid/viewmodels/MetadataEditViewModel.kt:196-204 | every book takes the title; length and order kept |
| Search.StateAfterRetrieve | app/src/main/java/me/devsaki/hentoid/database/SearchContent.java:74-97 | always READY or FAILED; READY iff launched and fetched, or already READY |
| Search.Report | app/src/main/java/me/devsaki/hentoid/database/SearchContent.java:60-65 | the listener hears `onContentReady(success, list)` then `onContentFailed(failure)`, in that order |
| Search.SearchContent.Retrieve | app/src/main/java/me/devsaki/hentoid/database/SearchContent.java:56-72 | (a settled search needs a listener) READY: success with the cached books, FAILED: failure, no new task; otherwise INIT and one task launched |
| Search.SearchContent.RetrieveResultsByTags | app/src/main/java/me/devsaki/hentoid/database/SearchContent.java:36-45 | no query, page 0, page size 0, the given tags and order; then `Retrieve`, with its listener requirement |
| Search.SearchContent.RetrieveResultsByQuery | app/src/main/java/me/devsaki/hentoid/database/SearchContent.java:46-54 | tags cleared, query, page, page size and order stored; then `Retrieve`, with its listener requirement |
| Search.SearchContent.RetrieveContent | app/src/main/java/me/devsaki/hentoid/database/SearchContent.java:74-97 | tag selection iff tags are set; state per `StateAfterRetrieve`; books replaced only by a successful launched fetch |
| Search.SearchContent.OnPostExecute | app/src/main/java/me/devsaki/hentoid/database/SearchContent.java:118-125 | listener told success iff READY, failure iff FAILED |
| Search.SearchContent.RunSearchTask | app/src/main/java/me/devsaki/hentoid/database/SearchContent.java:112-125 | the task ends READY or FAILED and reports exactly that outcome |

## Left out

- The store itself (`ObjectBoxDB` queries, `ObjectBoxLiveData`, `MediatorLiveData`, `LivePagedListBuilder`, the three data source factories):
  - Query answers are inputs or are computed from the `Dao` tables.
  - The data source factories are tags holding their query or id list; serving pages is not modelled.
- The max-order queries on an empty scope are taken to answer 0. `ObjectBoxDB` is not part of this model.
- Rx, `AsyncTask` and `synchronized`: every step runs sequentially. A LiveData `postValue` is an immediate assignment.
- Floating point: `Math.ceil(x * 1.0 / n)` is integer ceiling division.
- Java `int`/`long` overflow of ranks, orders, counts and the initial load size is not modelled; integers are unbounded.
- Ids assigned by the store on a first `put`, the ids the insert methods return, and `put` overwriting an existing id are not modelled. Inserts append.
- ObjectBoxDao.Dao.AddContentToQueue: does not model the image status update for `targetImageStatus`, which writes image rows not held in the model.
- ObjectBoxDao.Dao.InsertGroupItem: does not update the `items` backlink of the stored groups; the item table is `groupItems`.
- ObjectBoxDao.Dao.DeleteGroupItems: does not update the `items` backlink of the stored groups either.
- GroupListing.SortByKey: stability of the library `sortBy` is not stated.
- GroupListing.CoverResolved: reads ObjectBox's `ToOne.isResolvedAndNotNull()` as "the cover id is non-zero and its book is stored". ObjectBox is not part of this model; in the library the check is whether the in-memory relation is loaded and non-null, so a relation never loaded would keep a stale cover that `ClearedCovers` and `CoverOnInsert` say is cleared or replaced.
- ObjectBoxDao.SearchRecord: the equality `records.contains(record)` uses is taken to compare the search string and the label. `SearchRecord.java` is not part of this model; `HistoryAfterInsert`'s "already present" case depends on this reading.
- ObjectBoxDao.HistoryAfterInsert: requires `limit >= 1` for a new record; with a limit of 0 or less the source empties the list and then reads `records.get(0)`, an IndexOutOfBoundsException.
- ObjectBoxDao.Dao.InsertSearchRecord: requires `limit >= 1` for a new record, for the same IndexOutOfBoundsException.
- ObjectBoxDao.Dao.InsertGroupItem: requires the item's group to exist; the source dereferences `item.group.getTarget()` and throws NullPointerException otherwise.
- ObjectBoxDao.Dao.DeleteGroupItems: requires every selected item's group to exist; the source dereferences `gi.group.getTarget()` and throws NullPointerException otherwise.
- Search.SearchContent.Retrieve: requires a listener when the search is READY or FAILED; the source calls the listener without a null check there and throws NullPointerException.
- Search.SearchContent.RetrieveResultsByTags: requires a listener when the search is READY or FAILED, as it ends in `Retrieve`.
- Search.SearchContent.RetrieveResultsByQuery: requires a listener when the search is READY or FAILED, as it ends in `Retrieve`.
- MetadataEdit.MetadataEditViewModel.SetCover: requires a loaded selection to be non-empty; the source reads element 0 and throws IndexOutOfBoundsException on an empty list.
- MetadataEdit.MetadataEditViewModel.SetAttr: requires the selection to be loaded when an attribute is added; the source's `contentList.value!!` throws NullPointerException otherwise.
- MetadataEdit.MetadataEditViewModel.AddContentAttribute: requires the selection to be loaded, for the same NullPointerException in `setAttr`.
- LibraryShelf.LibraryContentFragment.LoadBookshelf: requires a page quantity of at least 1 and a current page of at least 1. With quantity 0 the source recurses until StackOverflowError (see Findings); with a page below 1 the negative start index makes `subList` throw.
- LibraryShelf.LibraryContentFragment.OnLibraryChanged: requires the same as `LoadBookshelf`, which it calls in paged mode; with quantity 0 the page count is also `Math.ceil` of a division by zero.
- ContentPaging.InitialLoad: requires a page size of at least 1; the paging library's `PagedList.Config` rejects smaller page sizes and is not part of this model.
- ContentPaging.GetPagedContent: requires a page size of at least 1, for the same reason.
- GroupListing.LatestDlDate: children whose book is no longer stored are skipped.
- Query building in `selectGroupsLive`: the text filter, artist visibility subtype, favourites and rating filter. The store's group list is an input.
- The filter, paging and sort parameters of `pagedAttributeSearch` and `countAttributes` only shape the store answers, which are inputs.
- Attribute equality is taken to compare id, type and name. The displayed count is kept beside the attribute, not inside it.
- `LibraryPager` is not part of this model; its current page and page count are plain fields.
- Adapters, diff computation, view types, dialogs and `saveContentPositions` are UI work. So is the paged adapter in endless-scroll mode, which leaves the shelf unchanged.
- `SearchContent`: the null tag filter case cannot arise because the field is never null. `HentoidDB` is not part of this model; its two selections are parameters that answer None when they throw.
- `PagerFragment.java` (UI), `DoujinsContent.java` (HTML scraping) and `ZipUtil.java` (file I/O) are not modelled.
- Persistence: `doSaveContent`, `persistJson`, `updateGroupsJson` and timestamps.

## Findings

| source | as written | input that shows it | evidently intended | confidence | as-written member | corrected member |
|---|---|---|---|---|---|---|
| app/src/main/java/me/devsaki/hentoid/fragments/library/LibraryContentFragment.java:966-991 | `getShelfBound` multiplies by the page quantity; with a quantity of 0 every page's bounds are `[0, 0)`, so `loadBookshelf` steps back one page and calls itself again without end (StackOverflowError) | a non-empty library with the "quantity per page" preference at 0 | the quantity is at least 1, and the step back stops on the last page of the library | low: not executed, and the settings screen may never offer 0 | LibraryShelf.ZeroQuantityNeverSettles | LibraryShelf.PositiveQuantitySettles |
