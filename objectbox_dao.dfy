/**
 * The bookkeeping the DAO does around the store on writes: queueing a
 * download, the capped search history, auto-numbered orders for groups,
 * group items and bookmarks, and group covers kept consistent when group
 * items come and go.
 *
 * The store's tables are the fields of `Dao`; what a store query answers
 * (a maximum order, whether a book is queued, a selection by ids) is
 * computed from those fields.
 */
module ObjectBoxDao {
  import opened Domain
  import opened Queue
  import opened GroupListing

  /** A bookmarked page of a site, ranked inside its site. */
  datatype SiteBookmark = SiteBookmark(id: int, site: int, url: string, order: int)

  /** An entry of the search history; two entries are the same entry when both fields agree. */
  datatype SearchRecord = SearchRecord(searchString: string, displayLabel: string)

  // ------------------------------------------------------------ auto-numbering

  /** The largest order among the elements in scope, 0 when the scope is empty (the store's max query). */
  function MaxOrderWhere<T>(s: seq<T>, inScope: T -> bool, order: T -> int): (m: int)
    ensures forall i :: 0 <= i < |s| && inScope(s[i]) ==> order(s[i]) <= m
    ensures (forall i :: 0 <= i < |s| ==> !inScope(s[i])) ==> m == 0
    ensures (exists i :: 0 <= i < |s| && inScope(s[i])) ==>
              exists i :: 0 <= i < |s| && inScope(s[i]) && order(s[i]) == m
  {
    if s == [] then 0
    else
      var rest := MaxOrderWhere(s[1..], inScope, order);
      assert forall i :: 1 <= i < |s| ==> s[i] == s[1..][i - 1];
      if !inScope(s[0]) then rest
      else if (exists i :: 0 <= i < |s[1..]| && inScope(s[1..][i])) && rest > order(s[0]) then rest
      else order(s[0])
  }

  /**
   * The order an inserted element ends up with: a given order is kept, and
   * -1 ("not provided") becomes one more than the largest order in scope, so
   * it lands after every element of its scope; in an empty scope that is 1.
   */
  function AutoNumbered<T>(s: seq<T>, inScope: T -> bool, order: T -> int, requested: int): (o: int)
    ensures requested != -1 ==> o == requested
    ensures requested == -1 ==> forall i :: 0 <= i < |s| && inScope(s[i]) ==> order(s[i]) < o
    ensures requested == -1 && (forall i :: 0 <= i < |s| ==> !inScope(s[i])) ==> o == 1
    ensures requested == -1 && (exists i :: 0 <= i < |s| && inScope(s[i])) ==>
              exists i :: 0 <= i < |s| && inScope(s[i]) && order(s[i]) + 1 == o
  {
    if requested == -1 then MaxOrderWhere(s, inScope, order) + 1 else requested
  }

  // ------------------------------------------------------------ search history

  /**
   * insertSearchRecord on values: a record already present changes nothing;
   * otherwise the oldest records are dropped from the front until fewer than
   * `limit` remain and the new record goes last.
   */
  function HistoryAfterInsert(records: seq<SearchRecord>, record: SearchRecord, limit: int): (r: seq<SearchRecord>)
    requires record in records || limit >= 1
    ensures record in records ==> r == records
    ensures record !in records ==> 1 <= |r| <= limit && |r| <= |records| + 1 && r[|r| - 1] == record
    ensures record !in records ==> r[..|r| - 1] == records[|records| - (|r| - 1)..]
    ensures record !in records && |records| < limit ==> r == records + [record]
    ensures record !in records && |records| >= limit ==> |r| == limit
  {
    if record in records then records
    else if |records| < limit then records + [record]
    else records[|records| - limit + 1..] + [record]
  }

  /** Searching the same thing twice leaves the history as searching it once. */
  lemma HistoryInsertIdempotent(records: seq<SearchRecord>, record: SearchRecord, limit: int)
    requires record in records || limit >= 1
    ensures var once := HistoryAfterInsert(records, record, limit);
            HistoryAfterInsert(once, record, limit) == once
  {
    var once := HistoryAfterInsert(records, record, limit);
    assert once[|once| - 1] == record || once == records;
  }

  /** A history that fits the limit still fits it after an insertion, and never holds a record twice if it did not before. */
  lemma HistoryStaysBounded(records: seq<SearchRecord>, record: SearchRecord, limit: int)
    requires limit >= 1 && |records| <= limit
    requires forall i, j :: 0 <= i < j < |records| ==> records[i] != records[j]
    ensures var r := HistoryAfterInsert(records, record, limit);
            |r| <= limit && forall i, j :: 0 <= i < j < |r| ==> r[i] != r[j]
  {
    var r := HistoryAfterInsert(records, record, limit);
    if record !in records {
      var kept := records[|records| - (|r| - 1)..];
      assert r == kept + [record];
      forall i, j | 0 <= i < j < |r| ensures r[i] != r[j] {
        if j == |r| - 1 {
          assert r[i] == kept[i] && kept[i] in records;
        } else {
          assert r[i] == records[|records| - (|r| - 1) + i];
          assert r[j] == records[|records| - (|r| - 1) + j];
        }
      }
    }
  }

  // ------------------------------------------------------------ group items

  /**
   * The cover rule of insertGroupItem: a group that receives the item and has
   * no resolved cover takes the item's book as its cover (no cover at all if
   * that book is not in the store), so it ends up with a resolved cover
   * whenever the book is stored; a resolved cover is never replaced, and no
   * other group and nothing but the cover changes.
   */
  function CoverOnInsert(groups: seq<Group>, contents: map<int, Content>, item: GroupItem): (r: seq<Group>)
    ensures |r| == |groups|
    ensures forall k :: 0 <= k < |r| && groups[k].id == item.groupId && item.contentId != 0 && item.contentId in contents ==>
              CoverResolved(r[k], contents)
    ensures forall k :: 0 <= k < |r| && groups[k].id == item.groupId && !CoverResolved(groups[k], contents) ==>
              r[k].coverContentId == (if item.contentId in contents then item.contentId else 0)
    ensures forall k :: 0 <= k < |r| && (groups[k].id != item.groupId || CoverResolved(groups[k], contents)) ==>
              r[k] == groups[k]
    ensures forall k :: 0 <= k < |r| ==> r[k].(coverContentId := groups[k].coverContentId) == groups[k]
  {
    seq(|groups|, k requires 0 <= k < |groups| =>
      if groups[k].id == item.groupId && !CoverResolved(groups[k], contents)
      then groups[k].(coverContentId := if item.contentId in contents then item.contentId else 0)
      else groups[k])
  }

  /** The group items of `items` whose ids are among `ids`, in table order. */
  function Selected(items: seq<GroupItem>, ids: seq<int>): (r: seq<GroupItem>)
    ensures forall gi :: gi in r <==> gi in items && gi.id in ids
    ensures |r| <= |items|
  {
    if items == [] then []
    else if items[0].id in ids then [items[0]] + Selected(items[1..], ids)
    else Selected(items[1..], ids)
  }

  /** The group items of `items` whose ids are not among `ids`, in table order. */
  function Remaining(items: seq<GroupItem>, ids: seq<int>): (r: seq<GroupItem>)
    ensures forall gi :: gi in r <==> gi in items && gi.id !in ids
    ensures |r| <= |items|
  {
    if items == [] then []
    else if items[0].id in ids then Remaining(items[1..], ids)
    else [items[0]] + Remaining(items[1..], ids)
  }

  /** Every item's group is one of `groups`. */
  predicate GroupsPresent(groups: seq<Group>, items: seq<GroupItem>)
  {
    forall i :: 0 <= i < |items| ==> exists k :: 0 <= k < |groups| && groups[k].id == items[i].groupId
  }

  /** Deleting splits the table: every item is either selected for deletion or remains, and the counts add up. */
  lemma {:induction false} SelectedAndRemainingSplit(items: seq<GroupItem>, ids: seq<int>)
    ensures |Selected(items, ids)| + |Remaining(items, ids)| == |items|
    ensures multiset(Selected(items, ids)) + multiset(Remaining(items, ids)) == multiset(items)
  {
    if items != [] {
      SelectedAndRemainingSplit(items[1..], ids);
      assert items == [items[0]] + items[1..];
    }
  }

  /** The loop of deleteGroupItems: the deleted items are handled one by one, in order. */
  method ClearCovers(groups: seq<Group>, contents: map<int, Content>, selected: seq<GroupItem>) returns (updated: seq<Group>)
    ensures updated == ClearedCovers(groups, contents, selected)
  {
    updated := groups;
    assert ClearedCovers(groups, contents, selected[..0]) == groups;
    var k := 0;
    while k < |selected|
      invariant 0 <= k <= |selected|
      invariant updated == ClearedCovers(groups, contents, selected[..k])
    {
      ClearedCoversStep(groups, contents, selected[..k], selected[k]);
      assert selected[..k + 1] == selected[..k] + [selected[k]];
      updated := ClearCoverFor(updated, contents, selected[k]);
      k := k + 1;
    }
    assert selected[..k] == selected;
  }

  // ------------------------------------------------------------ the store

  /** The DAO over its tables. */
  class Dao {
    var contents: map<int, Content>
    var queue: seq<QueueRecord>
    var groups: seq<Group>
    var groupItems: seq<GroupItem>
    var bookmarks: seq<SiteBookmark>
    var searchRecords: seq<SearchRecord>

    /** The queue invariant: ranks are exactly 1..N in list order. */
    predicate Valid()
      reads this
    {
      ContiguousRanks(queue)
    }

    /** An empty store. */
    constructor ()
      ensures Valid()
      ensures contents == map[] && queue == [] && groups == [] && groupItems == []
      ensures bookmarks == [] && searchRecords == []
    {
      contents := map[];
      queue := [];
      groups := [];
      groupItems := [];
      bookmarks := [];
      searchRecords := [];
    }

    /**
     * addContentToQueue: the book is stored paused and no longer being
     * deleted, remembering the book it replaces when one is given; if it is
     * not queued yet it is inserted at the rank its position asks for and the
     * queue is renumbered.
     */
    method AddContentToQueue(content: Content, position: QueuePosition, replacedContentId: int, isQueueActive: bool)
      requires Valid()
      modifies this
      ensures Valid()
      ensures content.id in contents
      ensures contents == old(contents)[content.id := content.(
                status := Paused, isBeingDeleted := false,
                contentIdToReplace := if replacedContentId > -1 then replacedContentId else content.contentIdToReplace)]
      ensures content.id in ContentIds(old(queue)) ==> queue == old(queue)
      ensures content.id !in ContentIds(old(queue)) ==>
                TargetRank(old(queue), position, isQueueActive) >= 1
                && queue == QueueAfterInsert(old(queue), content.id, TargetRank(old(queue), position, isQueueActive))
      ensures content.id in ContentIds(queue)
      ensures groups == old(groups) && groupItems == old(groupItems)
      ensures bookmarks == old(bookmarks) && searchRecords == old(searchRecords)
    {
      var stored := content.(status := Paused, isBeingDeleted := false);
      if replacedContentId > -1 {
        stored := stored.(contentIdToReplace := replacedContentId);
      }
      contents := contents[content.id := stored];

      if content.id !in ContentIds(queue) {
        var targetPosition := TargetRank(queue, position, isQueueActive);
        TargetIndexOf(queue, position, isQueueActive);
        var k := InsertIndex(|queue|, targetPosition);
        queue := InsertQueueAndRenumber(queue, content.id, targetPosition);
        assert ContentIds(queue)[k] == content.id;
      }
    }

    /**
     * insertSearchRecord: a record already in the history is not added again;
     * otherwise the oldest records are deleted one by one until fewer than
     * `limit` remain, and the new record is appended.
     */
    method InsertSearchRecord(record: SearchRecord, limit: int)
      requires record in searchRecords || limit >= 1
      modifies this
      ensures searchRecords == HistoryAfterInsert(old(searchRecords), record, limit)
      ensures contents == old(contents) && queue == old(queue) && groups == old(groups)
      ensures groupItems == old(groupItems) && bookmarks == old(bookmarks)
    {
      var records := searchRecords;
      if record in records {
        return;
      }
      ghost var dropped := 0;
      while |records| >= limit
        modifies {}
        invariant 0 <= dropped <= |searchRecords|
        invariant records == searchRecords[dropped..]
        invariant dropped > 0 ==> |records| >= limit - 1
        decreases |records|
      {
        records := records[1..];
        dropped := dropped + 1;
      }
      searchRecords := records + [record];
    }

    /** insertGroup: appended with its order auto-numbered among the groups of the same grouping. */
    method InsertGroup(group: Group)
      modifies this
      ensures groups == old(groups) + [group.(order := AutoNumbered(old(groups), (g: Group) => g.grouping == group.grouping, (g: Group) => g.order, group.order))]
      ensures contents == old(contents) && queue == old(queue) && groupItems == old(groupItems)
      ensures bookmarks == old(bookmarks) && searchRecords == old(searchRecords)
    {
      var g := group;
      if g.order == -1 {
        g := g.(order := MaxOrderWhere(groups, (x: Group) => x.grouping == group.grouping, (x: Group) => x.order) + 1);
      }
      groups := groups + [g];
    }

    /**
     * insertGroupItem: appended with its order auto-numbered among the items
     * of the same group; its group, which must exist, takes the item's book as
     * cover when it has no resolved cover.
     */
    method InsertGroupItem(item: GroupItem)
      requires exists k :: 0 <= k < |groups| && groups[k].id == item.groupId
      modifies this
      ensures groupItems == old(groupItems) + [item.(order := AutoNumbered(old(groupItems), (gi: GroupItem) => gi.groupId == item.groupId, (gi: GroupItem) => gi.order, item.order))]
      ensures groups == CoverOnInsert(old(groups), old(contents), item)
      ensures contents == old(contents) && queue == old(queue)
      ensures bookmarks == old(bookmarks) && searchRecords == old(searchRecords)
    {
      var it := item;
      if it.order == -1 {
        it := it.(order := MaxOrderWhere(groupItems, (x: GroupItem) => x.groupId == item.groupId, (x: GroupItem) => x.order) + 1);
      }
      groups := CoverOnInsert(groups, contents, item);
      groupItems := groupItems + [it];
    }

    /**
     * deleteGroupItems: each selected item whose book is its group's cover
     * clears that cover, then the items are deleted. Every selected item's
     * group is read, so it must exist.
     */
    method DeleteGroupItems(groupItemIds: seq<int>)
      requires GroupsPresent(groups, Selected(groupItems, groupItemIds))
      modifies this
      ensures groups == ClearedCovers(old(groups), old(contents), Selected(old(groupItems), groupItemIds))
      ensures groupItems == Remaining(old(groupItems), groupItemIds)
      ensures contents == old(contents) && queue == old(queue)
      ensures bookmarks == old(bookmarks) && searchRecords == old(searchRecords)
    {
      var selected := Selected(groupItems, groupItemIds);
      groups := ClearCovers(groups, contents, selected);
      groupItems := Remaining(groupItems, groupItemIds);
    }

    /** insertBookmark: appended with its order auto-numbered among the bookmarks of the same site. */
    method InsertBookmark(bookmark: SiteBookmark)
      modifies this
      ensures bookmarks == old(bookmarks) + [bookmark.(order := AutoNumbered(old(bookmarks), (b: SiteBookmark) => b.site == bookmark.site, (b: SiteBookmark) => b.order, bookmark.order))]
      ensures contents == old(contents) && queue == old(queue) && groups == old(groups)
      ensures groupItems == old(groupItems) && searchRecords == old(searchRecords)
    {
      var b := bookmark;
      if b.order == -1 {
        b := b.(order := MaxOrderWhere(bookmarks, (x: SiteBookmark) => x.site == bookmark.site, (x: SiteBookmark) => x.order) + 1);
      }
      bookmarks := bookmarks + [b];
    }
  }
}
