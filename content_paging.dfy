/**
 * How the DAO turns a book search into a paged list: which of the three
 * data sources serves the pages, what total it reports and how large the
 * first load is; and the attribute listings and counts behind the faceted
 * search screen.
 *
 * The store's answers (query counts, id lists, the shuffled order, the
 * per-type attribute pages and counts) are inputs.
 */
module ContentPaging {
  import opened Domain

  /** The parts of a search bundle the pager itself looks at; the filters only shape the store's answers. */
  datatype SearchBundle = SearchBundle(sortField: SortField, loadAll: bool)

  /** The store query that selects the books: universal (title or any attribute) or attribute-scoped. */
  datatype ContentQuery = UniversalQuery | SearchQuery

  /** The three data source factories of the pager. */
  datatype DataSource =
    | NativeSource(query: ContentQuery)
    | ShuffledSource(query: ContentQuery, shuffledIds: seq<int>)
    | PredeterminedSource(ids: seq<int>)

  /** What the store answers to the queries the pager issues. */
  datatype StoreAnswers = StoreAnswers(
    universalCount: nat,
    searchCount: nat,
    universalIdsByGroupItem: seq<int>,
    searchIdsByGroupItem: seq<int>,
    shuffledIds: seq<int>)

  /** The paged list that is built: reported total, data source and paging configuration. */
  datatype PagedContent = PagedContent(
    total: nat,
    source: DataSource,
    pageSize: nat,
    initialLoadSizeHint: nat,
    placeholders: bool)

  function QueryOf(isUniversal: bool): ContentQuery
  {
    if isUniversal then UniversalQuery else SearchQuery
  }

  /**
   * Size of the first load. In load-all mode it is the total rounded up to
   * whole pages, so the first load covers every result and overshoots by less
   * than a page; otherwise it is two pages.
   */
  function InitialLoad(total: nat, pageSize: nat, loadAll: bool): (n: nat)
    requires pageSize > 0
    ensures loadAll ==> n % pageSize == 0 && total <= n < total + pageSize
    ensures !loadAll ==> n == 2 * pageSize
  {
    if loadAll then
      var pages := CeilDiv(total, pageSize);
      MultipleHasNoRemainder(pages, pageSize);
      pages * pageSize
    else pageSize * 2
  }

  /** getPagedContentByQuery: the store query's count, served natively or through the shuffled order. */
  function PagedContentByQuery(isUniversal: bool, bundle: SearchBundle, store: StoreAnswers): (r: (nat, DataSource))
    ensures r.0 == if isUniversal then store.universalCount else store.searchCount
    ensures !r.1.PredeterminedSource? && r.1.query == QueryOf(isUniversal)
    ensures r.1.ShuffledSource? <==> bundle.sortField == FieldRandom
    ensures r.1.ShuffledSource? ==> r.1.shuffledIds == store.shuffledIds
  {
    var query := QueryOf(isUniversal);
    var count := if isUniversal then store.universalCount else store.searchCount;
    if bundle.sortField == FieldRandom then (count, ShuffledSource(query, store.shuffledIds))
    else (count, NativeSource(query))
  }

  /** getPagedContentByList: the ids in custom order, counted by their number. */
  function PagedContentByList(isUniversal: bool, store: StoreAnswers): (r: (nat, DataSource))
    ensures r.1.PredeterminedSource? && r.0 == |r.1.ids|
    ensures r.1.ids == if isUniversal then store.universalIdsByGroupItem else store.searchIdsByGroupItem
  {
    var ids := if isUniversal then store.universalIdsByGroupItem else store.searchIdsByGroupItem;
    (|ids|, PredeterminedSource(ids))
  }

  /**
   * getPagedContent: the custom order is served from the predetermined id
   * list and counts its ids, the random order from the shuffled ids and every
   * other order natively, both counting the store query; the first load
   * covers everything in load-all mode, where placeholders are off.
   */
  function GetPagedContent(isUniversal: bool, bundle: SearchBundle, store: StoreAnswers, pageSize: nat): (r: PagedContent)
    requires pageSize > 0
    ensures bundle.sortField == FieldCustom <==> r.source.PredeterminedSource?
    ensures bundle.sortField == FieldRandom <==> r.source.ShuffledSource?
    ensures r.source.PredeterminedSource? ==>
              r.source.ids == (if isUniversal then store.universalIdsByGroupItem else store.searchIdsByGroupItem)
              && r.total == |r.source.ids|
    ensures !r.source.PredeterminedSource? ==>
              r.source.query == (if isUniversal then UniversalQuery else SearchQuery)
              && r.total == (if isUniversal then store.universalCount else store.searchCount)
    ensures r.source.ShuffledSource? ==> r.source.shuffledIds == store.shuffledIds
    ensures r.pageSize == pageSize && r.placeholders == !bundle.loadAll
    ensures bundle.loadAll ==>
              r.initialLoadSizeHint % pageSize == 0 && r.total <= r.initialLoadSizeHint < r.total + pageSize
    ensures !bundle.loadAll ==> r.initialLoadSizeHint == 2 * pageSize
  {
    var retrieval :=
      if bundle.sortField == FieldCustom then PagedContentByList(isUniversal, store)
      else PagedContentByQuery(isUniversal, bundle, store);
    PagedContent(retrieval.0, retrieval.1, pageSize, InitialLoad(retrieval.0, pageSize, bundle.loadAll), !bundle.loadAll)
  }

  // ------------------------------------------------------------ attributes

  /** A page of attributes and the number of attributes that match in all. */
  datatype AttributeQueryResult = AttributeQueryResult(attributes: seq<Attribute>, totalSelectedAttributes: nat)

  /** The per-type pages, one after the other in the order of the types. */
  function PagesInTypeOrder(types: seq<AttributeType>, available: AttributeType -> seq<Attribute>): (r: seq<Attribute>)
    ensures types == [] ==> r == []
    ensures |types| == 1 ==> r == available(types[0])
  {
    if types == [] then [] else PagesInTypeOrder(types[..|types| - 1], available) + available(types[|types| - 1])
  }

  /** The per-type counts added up. */
  function TotalOfCounts(types: seq<AttributeType>, count: AttributeType -> nat): (t: nat)
    ensures types == [] ==> t == 0
    ensures |types| == 1 ==> t == count(types[0])
  {
    if types == [] then 0 else TotalOfCounts(types[..|types| - 1], count) + count(types[|types| - 1])
  }

  /** Both folds work type by type: over `a + b` they give the result over `a` followed by (added to) the one over `b`. */
  lemma {:induction false} TypeOrderAppend(
    a: seq<AttributeType>, b: seq<AttributeType>,
    available: AttributeType -> seq<Attribute>, count: AttributeType -> nat)
    ensures PagesInTypeOrder(a + b, available) == PagesInTypeOrder(a, available) + PagesInTypeOrder(b, available)
    ensures TotalOfCounts(a + b, count) == TotalOfCounts(a, count) + TotalOfCounts(b, count)
    decreases |b|
  {
    if b == [] {
      assert a + b == a;
    } else {
      var init := b[..|b| - 1];
      TypeOrderAppend(a, init, available, count);
      assert (a + b)[..|a + b| - 1] == a + init;
      assert (a + b)[|a + b| - 1] == b[|b| - 1];
    }
  }

  /**
   * pagedAttributeSearch. `sources` is the store's list of available sources,
   * `available(t)` and `count(t)` its page and total for type `t` under the
   * current filter. Sources asked first are answered alone and counted by
   * their number; otherwise the pages of all types are concatenated and the
   * totals summed.
   */
  method PagedAttributeSearch(
    attrTypes: seq<AttributeType>, sources: seq<Attribute>,
    available: AttributeType -> seq<Attribute>, count: AttributeType -> nat)
    returns (r: AttributeQueryResult)
    ensures attrTypes == [] ==> r.attributes == [] && r.totalSelectedAttributes == 0
    ensures attrTypes != [] && attrTypes[0] == Source ==>
              r.attributes == sources && r.totalSelectedAttributes == |sources|
    ensures attrTypes != [] && attrTypes[0] != Source ==>
              r.attributes == PagesInTypeOrder(attrTypes, available)
              && r.totalSelectedAttributes == TotalOfCounts(attrTypes, count)
  {
    var attributes: seq<Attribute> := [];
    var totalSelectedAttributes: nat := 0;
    if attrTypes != [] {
      if attrTypes[0] == Source {
        attributes := attributes + sources;
        totalSelectedAttributes := |attributes|;
      } else {
        var i := 0;
        while i < |attrTypes|
          invariant 0 <= i <= |attrTypes|
          invariant attributes == PagesInTypeOrder(attrTypes[..i], available)
          invariant totalSelectedAttributes == TotalOfCounts(attrTypes[..i], count)
        {
          assert attrTypes[..i + 1][..i] == attrTypes[..i];
          attributes := attributes + available(attrTypes[i]);
          totalSelectedAttributes := totalSelectedAttributes + count(attrTypes[i]);
          i := i + 1;
        }
        assert attrTypes[..i] == attrTypes;
      }
    }
    r := AttributeQueryResult(attributes, totalSelectedAttributes);
  }

  /** No filter, no location, no content type and no group: the whole library is counted. */
  predicate IsUnfilteredCount(groupId: int, filter: seq<Attribute>, location: int, contentType: int)
  {
    filter == [] && location == 0 && contentType == 0 && groupId == -1
  }

  /**
   * countAttributes: the per-type counts of the whole library or of the
   * filtered selection, where the count for sources is always the number of
   * available sources in the same scope, whatever the per-type count said.
   */
  function CountAttributes(
    groupId: int, filter: seq<Attribute>, location: int, contentType: int,
    libraryCounts: map<AttributeType, nat>, librarySources: seq<Attribute>,
    filteredCounts: map<AttributeType, nat>, filteredSources: seq<Attribute>): (r: map<AttributeType, nat>)
    ensures Source in r
    ensures IsUnfilteredCount(groupId, filter, location, contentType) ==>
              r[Source] == |librarySources|
              && forall t :: t != Source ==> (t in r <==> t in libraryCounts) && (t in r ==> r[t] == libraryCounts[t])
    ensures !IsUnfilteredCount(groupId, filter, location, contentType) ==>
              r[Source] == |filteredSources|
              && forall t :: t != Source ==> (t in r <==> t in filteredCounts) && (t in r ==> r[t] == filteredCounts[t])
  {
    if IsUnfilteredCount(groupId, filter, location, contentType) then libraryCounts[Source := |librarySources|]
    else filteredCounts[Source := |filteredSources|]
  }
}
