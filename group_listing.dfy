/**
 * Groups of books and the in-memory work the DAO does on them: group covers
 * kept consistent with the group items, the dynamically populated groups
 * (download-date buckets, the "ungrouped" group) and the two orderings the
 * store cannot do natively (number of children, latest child download date).
 */
module GroupListing {
  import opened Domain

  datatype Grouping = Flat | Artist | DlDate | Custom

  /** Joins a book to a group, with the book's rank inside the group. */
  datatype GroupItem = GroupItem(id: int, contentId: int, groupId: int, order: int)

  /**
   * A group. `coverContentId` is the book whose cover stands for the group
   * (0 when none); `propertyMin`/`propertyMax` bound a download-date bucket
   * in days; `items` are its group items.
   */
  datatype Group = Group(
    id: int,
    name: string,
    grouping: Grouping,
    subtype: int,
    order: int,
    coverContentId: int,
    propertyMin: int,
    propertyMax: int,
    items: seq<GroupItem>)

  // ---------------------------------------------------------------- covers

  /** The cover reference is set and its book is still in the store (ToOne.isResolvedAndNotNull). */
  predicate CoverResolved(g: Group, contents: map<int, Content>)
  {
    g.coverContentId != 0 && g.coverContentId in contents
  }

  /** One of the deleted group items belongs to `g` and holds the book `g` uses as its cover. */
  predicate CoverHit(g: Group, contents: map<int, Content>, deleted: seq<GroupItem>)
  {
    CoverResolved(g, contents)
    && exists i :: 0 <= i < |deleted| && deleted[i].groupId == g.id && deleted[i].contentId == g.coverContentId
  }

  /** What handling one deleted group item does to the groups: the cover of its group goes if it is that item's book. */
  function ClearCoverFor(groups: seq<Group>, contents: map<int, Content>, gi: GroupItem): (r: seq<Group>)
    ensures |r| == |groups|
    ensures forall k :: 0 <= k < |r| && groups[k].id == gi.groupId ==>
              !(CoverResolved(r[k], contents) && r[k].coverContentId == gi.contentId)
    ensures forall k :: 0 <= k < |r| ==>
              (r[k] != groups[k] <==> groups[k].id == gi.groupId && CoverResolved(groups[k], contents)
                                      && groups[k].coverContentId == gi.contentId)
    ensures forall k :: 0 <= k < |r| ==> r[k] == groups[k] || r[k] == groups[k].(coverContentId := 0)
  {
    seq(|groups|, k requires 0 <= k < |groups| =>
      if groups[k].id == gi.groupId && CoverResolved(groups[k], contents) && groups[k].coverContentId == gi.contentId
      then groups[k].(coverContentId := 0)
      else groups[k])
  }

  /**
   * The groups once a batch of group items is deleted: no group is left with
   * a cover pointing at the book of one of its deleted items, a cover is only
   * ever cleared (never reassigned), it is cleared only when one of the
   * group's deleted items held it, and nothing but covers changes.
   */
  function ClearedCovers(groups: seq<Group>, contents: map<int, Content>, deleted: seq<GroupItem>): (r: seq<Group>)
    ensures |r| == |groups|
    ensures forall k, i :: 0 <= k < |r| && 0 <= i < |deleted| && deleted[i].groupId == r[k].id ==>
              !(CoverResolved(r[k], contents) && r[k].coverContentId == deleted[i].contentId)
    ensures forall k :: 0 <= k < |r| ==> r[k].(coverContentId := groups[k].coverContentId) == groups[k]
    ensures forall k :: 0 <= k < |r| ==> r[k].coverContentId == groups[k].coverContentId || r[k].coverContentId == 0
    ensures forall k :: 0 <= k < |r| && r[k] != groups[k] ==> CoverHit(groups[k], contents, deleted)
  {
    seq(|groups|, k requires 0 <= k < |groups| =>
      if CoverHit(groups[k], contents, deleted) then groups[k].(coverContentId := 0) else groups[k])
  }

  /** One more deleted item hits a group exactly when it holds the group's resolved cover. */
  lemma CoverHitAppend(g: Group, contents: map<int, Content>, deleted: seq<GroupItem>, gi: GroupItem)
    ensures CoverHit(g, contents, deleted + [gi]) <==>
              CoverHit(g, contents, deleted)
              || (CoverResolved(g, contents) && gi.groupId == g.id && gi.contentId == g.coverContentId)
  {
    var all := deleted + [gi];
    assert forall i :: 0 <= i < |deleted| ==> all[i] == deleted[i];
    assert all[|deleted|] == gi;
  }

  /** Handling the deleted items one after the other gives ClearedCovers, whatever the order. */
  lemma ClearedCoversStep(groups: seq<Group>, contents: map<int, Content>, deleted: seq<GroupItem>, gi: GroupItem)
    ensures ClearedCovers(groups, contents, deleted + [gi])
         == ClearCoverFor(ClearedCovers(groups, contents, deleted), contents, gi)
  {
    var lhs := ClearedCovers(groups, contents, deleted + [gi]);
    var rhs := ClearCoverFor(ClearedCovers(groups, contents, deleted), contents, gi);
    forall k | 0 <= k < |groups| ensures lhs[k] == rhs[k] {
      CoverHitAppend(groups[k], contents, deleted, gi);
    }
  }

  // ----------------------------------------------- dynamically populated groups

  /**
   * enrichGroupWithItemsByDlDate: the books downloaded inside the bucket's
   * range become the group's items, in the order the store gives them, with
   * no rank of their own; the first of them supplies the cover.
   */
  function EnrichGroupWithItemsByDlDate(g: Group, inRange: seq<Content>): (r: Group)
    ensures |r.items| == |inRange|
    ensures forall i :: 0 <= i < |inRange| ==> r.items[i].contentId == inRange[i].id
    ensures forall i :: 0 <= i < |r.items| ==> r.items[i].groupId == g.id && r.items[i].order == -1
    ensures inRange != [] ==> r.coverContentId == inRange[0].id
    ensures inRange == [] ==> r.coverContentId == g.coverContentId
    ensures r.(items := g.items, coverContentId := g.coverContentId) == g
  {
    var items := seq(|inRange|, i requires 0 <= i < |inRange| => GroupItem(0, inRange[i].id, g.id, -1));
    if items == [] then g.(items := items)
    else g.(items := items, coverContentId := items[0].contentId)
  }

  /** Custom-grouping groups of subtype 1 are the "ungrouped" group. */
  predicate IsUngroupedGroup(g: Group)
  {
    g.grouping == Custom && g.subtype == 1
  }

  /**
   * enrichUngroupedWithItems: the ungrouped group receives one unranked item
   * per book that is in no custom group; every other group is left as it is.
   */
  function EnrichUngroupedWithItems(g: Group, ungroupedIds: seq<int>): (r: Group)
    ensures !IsUngroupedGroup(g) ==> r == g
    ensures IsUngroupedGroup(g) ==>
              && |r.items| == |ungroupedIds|
              && (forall i :: 0 <= i < |r.items| ==> r.items[i] == GroupItem(0, ungroupedIds[i], g.id, -1))
              && r.(items := g.items) == g
  {
    if IsUngroupedGroup(g) then
      g.(items := seq(|ungroupedIds|, i requires 0 <= i < |ungroupedIds| => GroupItem(0, ungroupedIds[i], g.id, -1)))
    else g
  }

  /**
   * The groups as selectGroupsLive hands them to the sorting step: the store's
   * groups, each enriched according to the grouping. `inDlRange` answers the
   * store's query for books downloaded between two day bounds.
   */
  function EnrichedGroups(grouping: Grouping, groups: seq<Group>, inDlRange: (int, int) -> seq<Content>, ungroupedIds: seq<int>): (r: seq<Group>)
    ensures |r| == |groups|
    ensures forall k :: 0 <= k < |r| ==> r[k].id == groups[k].id && r[k].grouping == groups[k].grouping
    ensures grouping == DlDate ==>
              forall k :: 0 <= k < |r| ==> r[k] == EnrichGroupWithItemsByDlDate(groups[k], inDlRange(groups[k].propertyMin, groups[k].propertyMax))
    ensures grouping == Custom ==> forall k :: 0 <= k < |r| ==> r[k] == EnrichUngroupedWithItems(groups[k], ungroupedIds)
    ensures grouping != DlDate && grouping != Custom ==> r == groups
  {
    if grouping == DlDate then
      var r := seq(|groups|, k requires 0 <= k < |groups| =>
        EnrichGroupWithItemsByDlDate(groups[k], inDlRange(groups[k].propertyMin, groups[k].propertyMax)));
      assert forall k :: 0 <= k < |r| ==> r[k].id == groups[k].id && r[k].grouping == groups[k].grouping by {
        forall k | 0 <= k < |r| ensures r[k].id == groups[k].id && r[k].grouping == groups[k].grouping {
          var e := r[k];
          assert e == EnrichGroupWithItemsByDlDate(groups[k], inDlRange(groups[k].propertyMin, groups[k].propertyMax));
          assert e.(items := groups[k].items, coverContentId := groups[k].coverContentId) == groups[k];
        }
      }
      r
    else if grouping == Custom then
      seq(|groups|, k requires 0 <= k < |groups| => EnrichUngroupedWithItems(groups[k], ungroupedIds))
    else groups
  }

  // ------------------------------------------------------------ derived sorts

  /** Download dates of the group's children that the store still holds. */
  function ChildDates(items: seq<GroupItem>, contents: map<int, Content>): (r: seq<int>)
    ensures |r| <= |items|
    ensures (forall i :: 0 <= i < |items| ==> items[i].contentId in contents) ==> |r| == |items|
  {
    if items == [] then []
    else
      (if items[0].contentId in contents then [contents[items[0].contentId].downloadDate] else [])
      + ChildDates(items[1..], contents)
  }

  /** A date is among ChildDates exactly when some child still in the store has it. */
  lemma {:induction false} ChildDatesMembers(items: seq<GroupItem>, contents: map<int, Content>, d: int)
    ensures d in ChildDates(items, contents) <==>
              exists i :: 0 <= i < |items| && items[i].contentId in contents && contents[items[i].contentId].downloadDate == d
  {
    if items != [] {
      ChildDatesMembers(items[1..], contents, d);
      if exists i :: 0 <= i < |items[1..]| && items[1..][i].contentId in contents && contents[items[1..][i].contentId].downloadDate == d {
        var i :| 0 <= i < |items[1..]| && items[1..][i].contentId in contents && contents[items[1..][i].contentId].downloadDate == d;
        assert items[i + 1] == items[1..][i];
      }
      if exists i :: 0 <= i < |items| && items[i].contentId in contents && contents[items[i].contentId].downloadDate == d {
        var i :| 0 <= i < |items| && items[i].contentId in contents && contents[items[i].contentId].downloadDate == d;
        if i > 0 {
          assert items[1..][i - 1] == items[i];
        }
      }
    }
  }

  /** The largest of the ChildDates bounds every child in the store and is the date of one of them. */
  lemma MaxChildDate(items: seq<GroupItem>, contents: map<int, Content>)
    ensures var d := MaxOf(ChildDates(items, contents));
            && ((forall i :: 0 <= i < |items| ==> items[i].contentId !in contents) ==> d == 0)
            && (forall i :: 0 <= i < |items| && items[i].contentId in contents ==> contents[items[i].contentId].downloadDate <= d)
            && ((exists i :: 0 <= i < |items| && items[i].contentId in contents) ==>
                  exists i :: 0 <= i < |items| && items[i].contentId in contents && contents[items[i].contentId].downloadDate == d)
  {
    var dates := ChildDates(items, contents);
    var d := MaxOf(dates);
    forall i | 0 <= i < |items| && items[i].contentId in contents
      ensures contents[items[i].contentId].downloadDate <= d
    {
      ChildDatesMembers(items, contents, contents[items[i].contentId].downloadDate);
    }
    if dates != [] {
      ChildDatesMembers(items, contents, d);
    } else if exists i :: 0 <= i < |items| && items[i].contentId in contents {
      var i :| 0 <= i < |items| && items[i].contentId in contents;
      ChildDatesMembers(items, contents, contents[items[i].contentId].downloadDate);
    }
  }

  /**
   * getLatestDlDate: the latest download date among the group's children
   * still in the store, or 0 when there is none.
   */
  function LatestDlDate(g: Group, contents: map<int, Content>): (d: int)
    ensures (forall i :: 0 <= i < |g.items| ==> g.items[i].contentId !in contents) ==> d == 0
    ensures forall i :: 0 <= i < |g.items| && g.items[i].contentId in contents ==>
              contents[g.items[i].contentId].downloadDate <= d
    ensures (exists i :: 0 <= i < |g.items| && g.items[i].contentId in contents) ==>
              exists i :: 0 <= i < |g.items| && g.items[i].contentId in contents && contents[g.items[i].contentId].downloadDate == d
  {
    MaxChildDate(g.items, contents);
    MaxOf(ChildDates(g.items, contents))
  }

  predicate SortedByKey(s: seq<Group>, key: Group -> int)
  {
    forall i, j :: 0 <= i < j < |s| ==> key(s[i]) <= key(s[j])
  }

  /** Puts `g` in front of the first element whose key is not smaller than its own. */
  function InsertByKey(g: Group, sorted: seq<Group>, key: Group -> int): seq<Group>
  {
    if sorted == [] || key(g) <= key(sorted[0]) then [g] + sorted
    else [sorted[0]] + InsertByKey(g, sorted[1..], key)
  }

  lemma {:induction false} InsertByKeyPermutes(g: Group, sorted: seq<Group>, key: Group -> int)
    ensures multiset(InsertByKey(g, sorted, key)) == multiset(sorted) + multiset{g}
  {
    if sorted != [] && key(g) > key(sorted[0]) {
      InsertByKeyPermutes(g, sorted[1..], key);
      assert sorted == [sorted[0]] + sorted[1..];
    }
  }

  lemma {:induction false} InsertByKeySorted(g: Group, sorted: seq<Group>, key: Group -> int)
    requires SortedByKey(sorted, key)
    ensures SortedByKey(InsertByKey(g, sorted, key), key)
    ensures forall x :: x in InsertByKey(g, sorted, key) ==> x == g || x in sorted
  {
    if sorted != [] && key(g) > key(sorted[0]) {
      var rest := InsertByKey(g, sorted[1..], key);
      InsertByKeySorted(g, sorted[1..], key);
      assert forall x :: x in rest ==> key(sorted[0]) <= key(x);
      var r := [sorted[0]] + rest;
      assert forall i :: 1 <= i < |r| ==> r[i] == rest[i - 1];
    }
  }

  /** The stream library's sortBy, by ascending key: a permutation of its input, sorted (stability is not modelled). */
  function SortByKey(s: seq<Group>, key: Group -> int): (r: seq<Group>)
    ensures multiset(r) == multiset(s)
    ensures SortedByKey(r, key)
  {
    if s == [] then []
    else
      var rest := SortByKey(s[1..], key);
      InsertByKeyPermutes(s[0], rest, key);
      InsertByKeySorted(s[0], rest, key);
      assert s == [s[0]] + s[1..];
      InsertByKey(s[0], rest, key)
  }

  /** The sign the source multiplies sort keys with: -1 for a descending order. */
  function SortSign(orderDesc: bool): int
  {
    if orderDesc then -1 else 1
  }

  /** Ordering by number of children, ascending or descending. */
  function SortByChildrenCount(groups: seq<Group>, orderDesc: bool): (r: seq<Group>)
    ensures multiset(r) == multiset(groups)
    ensures forall i, j :: 0 <= i < j < |r| ==>
              if orderDesc then |r[i].items| >= |r[j].items| else |r[i].items| <= |r[j].items|
  {
    var sign := SortSign(orderDesc);
    var key := (g: Group) => |g.items| * sign;
    var r := SortByKey(groups, key);
    assert forall i, j :: 0 <= i < j < |r| ==> key(r[i]) <= key(r[j]);
    r
  }

  /** Ordering by the latest download date of the children, ascending or descending. */
  function SortByLatestDlDate(groups: seq<Group>, orderDesc: bool, contents: map<int, Content>): (r: seq<Group>)
    ensures multiset(r) == multiset(groups)
    ensures forall i, j :: 0 <= i < j < |r| ==>
              if orderDesc then LatestDlDate(r[i], contents) >= LatestDlDate(r[j], contents)
              else LatestDlDate(r[i], contents) <= LatestDlDate(r[j], contents)
  {
    var sign := SortSign(orderDesc);
    var key := (g: Group) => LatestDlDate(g, contents) * sign;
    var r := SortByKey(groups, key);
    assert forall i, j :: 0 <= i < j < |r| ==> key(r[i]) <= key(r[j]);
    r
  }

  /**
   * The list selectGroupsLive publishes for the groups the store returned:
   * the enriched groups, reordered in memory for the two derived sort fields
   * and left in the store's order for every other field.
   */
  function SelectGroupsLive(
    grouping: Grouping, orderField: SortField, orderDesc: bool, groups: seq<Group>,
    inDlRange: (int, int) -> seq<Content>, ungroupedIds: seq<int>, contents: map<int, Content>): (r: seq<Group>)
    ensures multiset(r) == multiset(EnrichedGroups(grouping, groups, inDlRange, ungroupedIds))
    ensures orderField == FieldChildren ==> forall i, j :: 0 <= i < j < |r| ==>
              if orderDesc then |r[i].items| >= |r[j].items| else |r[i].items| <= |r[j].items|
    ensures orderField == FieldDownloadProcessingDate ==> forall i, j :: 0 <= i < j < |r| ==>
              if orderDesc then LatestDlDate(r[i], contents) >= LatestDlDate(r[j], contents)
              else LatestDlDate(r[i], contents) <= LatestDlDate(r[j], contents)
    ensures orderField != FieldChildren && orderField != FieldDownloadProcessingDate ==>
              r == EnrichedGroups(grouping, groups, inDlRange, ungroupedIds)
  {
    var enriched := EnrichedGroups(grouping, groups, inDlRange, ungroupedIds);
    if orderField == FieldChildren then SortByChildrenCount(enriched, orderDesc)
    else if orderField == FieldDownloadProcessingDate then SortByLatestDlDate(enriched, orderDesc, contents)
    else enriched
  }
}
