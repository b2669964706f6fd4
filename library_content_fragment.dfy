/**
 * The library screen in paged mode: the library is cut into shelves of
 * `q` books (the "quantity per page" preference), the current shelf is shown
 * and the page steps back when the last shelf empties. Also the sort menu,
 * field code and label mappings and the position bookkeeping the screen
 * keeps across moves, state saves and edit mode.
 *
 * A book slot of the paged list may be a null placeholder, hence
 * `Option<Content>`. Preference values are fields or parameters.
 */
module LibraryShelf {
  import opened Domain

  // ---------------------------------------------------------------- shelves

  /** Index range [lo, hi) of shelf `shelf` in a library of `size` books, `q` books per shelf. */
  function ShelfBound(shelf: int, size: nat, q: nat): (bounds: (int, int))
    ensures bounds.0 == (shelf - 1) * q
    ensures bounds.1 <= size && bounds.1 - bounds.0 <= q
    ensures bounds.1 == size || bounds.1 - bounds.0 == q
  {
    var lo := (shelf - 1) * q;
    (lo, if lo + q < size then lo + q else size)
  }

  /** Number of pages of the pager: shelves needed to hold the library. */
  function PageCount(size: nat, q: nat): (n: nat)
    requires q >= 1
    ensures n * q >= size && (n - 1) * q < size
  {
    CeilDiv(size, q)
  }

  /** A shelf from page 1 on is non-empty exactly when its page is one of the pager's pages. */
  lemma ShelfNonEmptyIff(shelf: int, size: nat, q: nat)
    requires q >= 1 && shelf >= 1
    ensures ShelfBound(shelf, size, q).0 < ShelfBound(shelf, size, q).1 <==> shelf <= PageCount(size, q)
    ensures shelf <= PageCount(size, q) ==> 0 <= ShelfBound(shelf, size, q).0
  {
    var n := PageCount(size, q);
    MulMonotone(0, shelf - 1, q);
    if (shelf - 1) * q < size {
      MulCancelLess(shelf - 1, n, q);
    }
    if shelf <= n {
      MulMonotone(shelf - 1, n - 1, q);
    }
  }

  /** Consecutive shelves abut, and the last page's shelf ends with the library. */
  lemma ShelvesTile(shelf: int, size: nat, q: nat)
    requires q >= 1 && 1 <= shelf <= PageCount(size, q)
    ensures shelf < PageCount(size, q) ==> ShelfBound(shelf + 1, size, q).0 == ShelfBound(shelf, size, q).1
    ensures shelf == PageCount(size, q) ==> ShelfBound(shelf, size, q).1 == size
  {
    var n := PageCount(size, q);
    assert (shelf + 1 - 1) * q == (shelf - 1) * q + q;
    if shelf < n {
      MulMonotone(shelf, n - 1, q);
    } else {
      assert n * q == (n - 1) * q + q;
    }
  }

  /**
   * The page loadBookshelf settles on for a non-empty library, following its
   * recursion as written: while the page's shelf is empty it steps back one
   * page. `fuel` bounds the number of steps; None means it is still stepping
   * back when the fuel runs out.
   */
  function SettledPage(page: int, size: nat, q: nat, fuel: nat): (r: Option<int>)
    decreases fuel
    ensures r.Some? ==> r.value <= page && ShelfBound(r.value, size, q).0 < ShelfBound(r.value, size, q).1
  {
    var bounds := ShelfBound(page, size, q);
    if bounds.0 < bounds.1 then Some(page)
    else if fuel == 0 then None
    else SettledPage(page - 1, size, q, fuel - 1)
  }

  /** With a page quantity of 0 every shelf is empty, so the step back never stops, however long it runs. */
  lemma {:induction false} ZeroQuantityNeverSettles(page: int, size: nat, fuel: nat)
    ensures SettledPage(page, size, 0, fuel) == None
    decreases fuel
  {
    assert ShelfBound(page, size, 0).0 == 0;
    if fuel > 0 {
      ZeroQuantityNeverSettles(page - 1, size, fuel - 1);
    }
  }

  /** With at least one book per page the step back stops after at most `page` steps, on the last page when it was beyond it. */
  lemma {:induction false} PositiveQuantitySettles(page: int, size: nat, q: nat)
    requires q >= 1 && page >= 1 && size >= 1
    ensures SettledPage(page, size, q, page) == Some(Min(page, PageCount(size, q)))
    decreases page
  {
    var n := PageCount(size, q);
    ShelfNonEmptyIff(page, size, q);
    if page > n {
      PositiveQuantitySettles(page - 1, size, q);
    }
  }

  /** The books of a list of slots, nulls left out, in order and with repeats kept (withoutNulls). */
  function NonNull(slots: seq<Option<Content>>): (r: seq<Content>)
    ensures |r| <= |slots|
    ensures forall c :: c in r <==> Some(c) in slots
    ensures slots == [] ==> r == []
    ensures |slots| == 1 ==> r == if slots[0].Some? then [slots[0].value] else []
  {
    if slots == [] then []
    else if slots[0].Some? then [slots[0].value] + NonNull(slots[1..])
    else NonNull(slots[1..])
  }

  /** Filtering works slot by slot: the books of two runs of slots are those of the first, then those of the second. */
  lemma {:induction false} NonNullAppend(a: seq<Option<Content>>, b: seq<Option<Content>>)
    ensures NonNull(a + b) == NonNull(a) + NonNull(b)
  {
    if a == [] {
      assert a + b == b;
    } else {
      var ab := a + b;
      assert ab[0] == a[0] && ab[1..] == a[1..] + b;
      NonNullAppend(a[1..], b);
      assert NonNull(ab) == (if a[0].Some? then [a[0].value] else []) + NonNull(a[1..] + b);
    }
  }

  function Min(a: int, b: int): int
  {
    if a < b then a else b
  }

  // ---------------------------------------------------------------- sort menu

  /** The sort menu's items; any other menu id is `OtherItem`. */
  datatype MenuId =
    | SortTitleItem | SortArtistItem | SortPagesItem | SortDlDateItem | SortReadDateItem
    | SortReadsItem | SortSizeItem | SortCustomItem | SortRandomItem
    | OtherItem(id: int)

  /** The sort_* string resources naming a sort field. */
  datatype SortLabel =
    | TitleLabel | ArtistLabel | PagesLabel | DlDateLabel | ReadDateLabel
    | ReadsLabel | SizeLabel | CustomLabel | RandomLabel | InvalidLabel

  /** The label shown next to each sort menu item: the string of the same name. */
  function MenuLabel(m: MenuId): SortLabel
  {
    match m
    case SortTitleItem => TitleLabel
    case SortArtistItem => ArtistLabel
    case SortPagesItem => PagesLabel
    case SortDlDateItem => DlDateLabel
    case SortReadDateItem => ReadDateLabel
    case SortReadsItem => ReadsLabel
    case SortSizeItem => SizeLabel
    case SortCustomItem => CustomLabel
    case SortRandomItem => RandomLabel
    case OtherItem(_) => InvalidLabel
  }

  /** getNameFromFieldCode: the label of a sort field; fields the menu does not offer are invalid. */
  function NameFromFieldCode(f: SortField): (l: SortLabel)
    ensures l == InvalidLabel <==>
              f in {FieldNone, FieldChildren, FieldDownloadProcessingDate}
  {
    match f
    case FieldTitle => TitleLabel
    case FieldArtist => ArtistLabel
    case FieldNbPages => PagesLabel
    case FieldDownloadDate => DlDateLabel
    case FieldReadDate => ReadDateLabel
    case FieldReads => ReadsLabel
    case FieldSize => SizeLabel
    case FieldCustom => CustomLabel
    case FieldRandom => RandomLabel
    case _ => InvalidLabel
  }

  /**
   * getFieldCodeFromMenuId: the sort field of a menu item, whose label is the
   * item's own; an unknown menu id sorts by no field.
   */
  function FieldCodeFromMenuId(m: MenuId): (f: SortField)
    ensures m.OtherItem? <==> f == FieldNone
    ensures NameFromFieldCode(f) == MenuLabel(m)
  {
    match m
    case SortTitleItem => FieldTitle
    case SortArtistItem => FieldArtist
    case SortPagesItem => FieldNbPages
    case SortDlDateItem => FieldDownloadDate
    case SortReadDateItem => FieldReadDate
    case SortReadsItem => FieldReads
    case SortSizeItem => FieldSize
    case SortCustomItem => FieldCustom
    case SortRandomItem => FieldRandom
    case OtherItem(_) => FieldNone
  }

  /** Two different menu items never select the same sort field. */
  lemma FieldCodeFromMenuIdInjective(m1: MenuId, m2: MenuId)
    requires !m1.OtherItem? && !m2.OtherItem?
    requires FieldCodeFromMenuId(m1) == FieldCodeFromMenuId(m2)
    ensures m1 == m2
  {
    assert MenuLabel(m1) == MenuLabel(m2);
  }

  // ---------------------------------------------------------------- the screen

  /** The state of the library screen the modelled code reads and writes. */
  class LibraryContentFragment {
    /** The pager's current page (1-based) and page count. */
    var currentPage: int
    var pageCount: nat
    /** The books shown by the item adapter. */
    var shelf: seq<Content>
    /** The last library received. */
    var library: seq<Option<Content>>
    var topItemPosition: int
    var itemToRefreshIndex: int
    /** Sort field and direction preferences, and the label on the sort field button. */
    var sortField: SortField
    var sortDesc: bool
    var sortFieldLabel: SortLabel
    var editMode: bool
    var newSearch: bool
    var enabled: bool
    /** Whether the displayed group has a custom book order. */
    var hasCustomBookOrder: bool

    predicate Valid()
      reads this
    {
      currentPage >= 1
    }

    /** The field values a fresh screen starts with. */
    constructor (sortField: SortField, sortDesc: bool, hasCustomBookOrder: bool)
      ensures Valid()
      ensures currentPage == 1 && pageCount == 0 && shelf == [] && library == []
      ensures topItemPosition == -1 && itemToRefreshIndex == -1
      ensures this.sortField == sortField && this.sortDesc == sortDesc && sortFieldLabel == NameFromFieldCode(sortField)
      ensures !editMode && !newSearch && enabled && this.hasCustomBookOrder == hasCustomBookOrder
    {
      currentPage := 1;
      pageCount := 0;
      shelf := [];
      library := [];
      topItemPosition := -1;
      itemToRefreshIndex := -1;
      this.sortField := sortField;
      this.sortDesc := sortDesc;
      sortFieldLabel := NameFromFieldCode(sortField);
      editMode := false;
      newSearch := false;
      enabled := true;
      this.hasCustomBookOrder := hasCustomBookOrder;
    }

    /**
     * loadBookshelf and populateBookshelf: an empty library empties the
     * shelf; otherwise the page steps back while its shelf is empty, which
     * stops at the last page of the library, and the shelf shows the books of
     * that page's slots, in order (in endless-scroll mode the item adapter is
     * left as it is).
     */
    method LoadBookshelf(lib: seq<Option<Content>>, q: int, endlessScroll: bool)
      requires Valid() && q >= 1
      modifies this
      ensures Valid()
      ensures lib == [] ==> shelf == [] && currentPage == old(currentPage)
      ensures lib != [] ==> currentPage == Min(old(currentPage), PageCount(|lib|, q))
      ensures lib != [] ==> SettledPage(old(currentPage), |lib|, q, old(currentPage)) == Some(currentPage)
      ensures lib != [] ==>
                var bounds := ShelfBound(currentPage, |lib|, q);
                0 <= bounds.0 < bounds.1 <= |lib|
                && shelf == if endlessScroll then old(shelf) else NonNull(lib[bounds.0..bounds.1])
      ensures pageCount == old(pageCount) && library == old(library)
      ensures topItemPosition == old(topItemPosition) && itemToRefreshIndex == old(itemToRefreshIndex)
      ensures sortField == old(sortField) && sortDesc == old(sortDesc) && sortFieldLabel == old(sortFieldLabel)
      ensures editMode == old(editMode) && newSearch == old(newSearch) && enabled == old(enabled)
      ensures hasCustomBookOrder == old(hasCustomBookOrder)
    {
      if lib == [] {
        shelf := [];
        return;
      }
      var n := PageCount(|lib|, q);
      var bounds := ShelfBound(currentPage, |lib|, q);
      ShelfNonEmptyIff(currentPage, |lib|, q);
      while bounds.0 >= bounds.1
        invariant Min(old(currentPage), n) <= currentPage <= old(currentPage)
        invariant bounds == ShelfBound(currentPage, |lib|, q)
        invariant bounds.0 >= bounds.1 <==> currentPage > n
        invariant currentPage >= 1
        invariant shelf == old(shelf)
        invariant pageCount == old(pageCount) && library == old(library)
        invariant topItemPosition == old(topItemPosition) && itemToRefreshIndex == old(itemToRefreshIndex)
        invariant sortField == old(sortField) && sortDesc == old(sortDesc) && sortFieldLabel == old(sortFieldLabel)
        invariant editMode == old(editMode) && newSearch == old(newSearch) && enabled == old(enabled)
        invariant hasCustomBookOrder == old(hasCustomBookOrder)
        decreases currentPage
      {
        // We just deleted the last book of the last page: go back one page
        currentPage := currentPage - 1;
        bounds := ShelfBound(currentPage, |lib|, q);
        ShelfNonEmptyIff(currentPage, |lib|, q);
      }
      PositiveQuantitySettles(old(currentPage), |lib|, q);
      if !endlessScroll {
        shelf := NonNull(lib[bounds.0..bounds.1]);
      }
    }

    /**
     * onLibraryChanged once the screen is enabled: a new search puts the list
     * back on top; the paged adapter takes the list in endless-scroll mode,
     * edit mode shows every book, and paged mode goes back to page 1 on a new
     * search, recounts the pages and loads the shelf. The list is remembered
     * and the new-search flag is consumed.
     */
    method OnLibraryChanged(result: seq<Option<Content>>, q: int, endlessScroll: bool, hasPagedAdapter: bool)
      requires Valid() && q >= 1
      modifies this
      ensures Valid()
      ensures !old(enabled) ==> currentPage == old(currentPage) && pageCount == old(pageCount) && shelf == old(shelf)
                                && library == old(library) && newSearch == old(newSearch)
                                && topItemPosition == old(topItemPosition)
      ensures old(enabled) ==> library == result && !newSearch
      ensures old(enabled) ==> topItemPosition == if old(newSearch) then 0 else old(topItemPosition)
      ensures old(enabled) && endlessScroll && !editMode && hasPagedAdapter ==>
                shelf == old(shelf) && currentPage == old(currentPage) && pageCount == old(pageCount)
      ensures old(enabled) && editMode ==>
                shelf == NonNull(result) && currentPage == old(currentPage) && pageCount == old(pageCount)
      ensures old(enabled) && !editMode && !(endlessScroll && hasPagedAdapter) ==>
                pageCount == PageCount(|result|, q)
                && (result == [] ==> shelf == [] && currentPage == if old(newSearch) then 1 else old(currentPage))
                && (result != [] ==> currentPage == Min(if old(newSearch) then 1 else old(currentPage), pageCount))
                && (result != [] ==>
                      var bounds := ShelfBound(currentPage, |result|, q);
                      0 <= bounds.0 < bounds.1 <= |result|
                      && shelf == if endlessScroll then old(shelf) else NonNull(result[bounds.0..bounds.1]))
      ensures editMode == old(editMode) && enabled == old(enabled) && itemToRefreshIndex == old(itemToRefreshIndex)
      ensures sortField == old(sortField) && sortDesc == old(sortDesc) && sortFieldLabel == old(sortFieldLabel)
      ensures hasCustomBookOrder == old(hasCustomBookOrder)
    {
      if !enabled {
        return;
      }
      // If the update is the result of a new search, get back on top of the list
      if newSearch {
        topItemPosition := 0;
      }
      if endlessScroll && !editMode && hasPagedAdapter {
        // the paged adapter takes the list
      } else if editMode {
        shelf := NonNull(result);
      } else {
        if newSearch {
          currentPage := 1;
        }
        pageCount := PageCount(|result|, q);
        LoadBookshelf(result, q, endlessScroll);
      }
      newSearch := false;
      library := result;
    }

    /** recordMoveFromFirstPos(from, to): only a move of the first item is remembered, by its destination. */
    method RecordMoveFromFirstPos(from: int, to: int)
      modifies this`itemToRefreshIndex
      ensures itemToRefreshIndex == if from == 0 then to else old(itemToRefreshIndex)
    {
      if from == 0 {
        itemToRefreshIndex := to;
      }
    }

    /**
     * recordMoveFromFirstPos(positions): when the moved block starts with the
     * first item, the index to refresh is where the block starts once moved to
     * the bottom of the `adapterItemCount` items.
     */
    method RecordMovesFromFirstPos(positions: seq<int>, adapterItemCount: int)
      modifies this`itemToRefreshIndex
      ensures positions != [] && positions[0] == 0 ==> itemToRefreshIndex == adapterItemCount - |positions|
      ensures !(positions != [] && positions[0] == 0) ==> itemToRefreshIndex == old(itemToRefreshIndex)
    {
      if positions != [] && positions[0] == 0 {
        itemToRefreshIndex := adapterItemCount - |positions|;
      }
    }

    /**
     * The position logic of onSaveInstanceState: the current top position
     * is saved unless it is the top of the list while a position is pending,
     * in which case the pending one is saved; then nothing is pending.
     */
    method OnSaveInstanceState(currentPosition: int) returns (saved: int)
      modifies this`topItemPosition
      ensures saved == if currentPosition > 0 || old(topItemPosition) == -1 then currentPosition else old(topItemPosition)
      ensures topItemPosition == -1
    {
      if currentPosition > 0 || -1 == topItemPosition {
        topItemPosition := currentPosition;
      }
      saved := topItemPosition;
      topItemPosition := -1;
    }

    /**
     * The sort settings of toggleEditMode: leaving edit mode keeps the order
     * the user arranged by switching to the custom field, ascending, and marks
     * the group as custom-ordered; entering it changes no setting.
     */
    method ToggleEditMode()
      modifies this`editMode, this`sortField, this`sortDesc, this`sortFieldLabel, this`hasCustomBookOrder
      ensures editMode == !old(editMode)
      ensures !editMode ==> sortField == FieldCustom && !sortDesc && sortFieldLabel == CustomLabel && hasCustomBookOrder
      ensures editMode ==> sortField == old(sortField) && sortDesc == old(sortDesc)
                           && sortFieldLabel == old(sortFieldLabel) && hasCustomBookOrder == old(hasCustomBookOrder)
    {
      editMode := !editMode;
      if !editMode {
        sortField := FieldCustom;
        sortFieldLabel := NameFromFieldCode(FieldCustom);
        sortDesc := false;
        hasCustomBookOrder := true;
      }
    }

    /** refreshIfNeeded: the content order is reloaded by hand only under the custom sort field. */
    method RefreshIfNeeded() returns (reload: bool)
      ensures reload <==> sortField == FieldCustom
    {
      reload := sortField == FieldCustom;
    }
  }
}
