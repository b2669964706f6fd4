/**
 * The download queue of the DAO: a list of queue records whose ranks must be
 * exactly 1..N in list order after every insertion.
 */
module Queue {
  import opened Domain

  /** Joins a queued book to its rank in the queue. */
  datatype QueueRecord = QueueRecord(contentId: int, rank: int)

  /** Where new downloads go; every setting other than Bottom is handled as the top of the queue. */
  datatype QueuePosition = Top | Bottom

  function ContentIds(q: seq<QueueRecord>): seq<int>
  {
    seq(|q|, i requires 0 <= i < |q| => q[i].contentId)
  }

  function Ranks(q: seq<QueueRecord>): seq<int>
  {
    seq(|q|, i requires 0 <= i < |q| => q[i].rank)
  }

  /** The queue invariant: the record at list index i has rank i + 1. */
  predicate ContiguousRanks(q: seq<QueueRecord>)
  {
    forall i :: 0 <= i < |q| ==> q[i].rank == i + 1
  }

  /** List index at which a record asked to sit at rank `order` lands in a queue of `n` records. */
  function InsertIndex(n: nat, order: int): (k: nat)
    requires order >= 1
    ensures k <= n
    ensures k < n ==> k + 1 == order
    ensures k == n <==> order > n
  {
    if order > n then n else order - 1
  }

  /**
   * Reference definition of insertQueueAndRenumber: the new record is put at
   * rank `order` (or last when `order` exceeds the queue length) and then
   * every record is given its 1-based position as rank.
   */
  function QueueAfterInsert(queue: seq<QueueRecord>, contentId: int, order: int): (r: seq<QueueRecord>)
    requires order >= 1
    ensures |r| == |queue| + 1
    ensures ContiguousRanks(r)
    ensures r[InsertIndex(|queue|, order)].contentId == contentId
    ensures var k := InsertIndex(|queue|, order);
            ContentIds(r) == ContentIds(queue)[..k] + [contentId] + ContentIds(queue)[k..]
    ensures var k := InsertIndex(|queue|, order);
            ContentIds(r)[..k] + ContentIds(r)[k + 1..] == ContentIds(queue)
  {
    var k := InsertIndex(|queue|, order);
    var placed := queue[..k] + [QueueRecord(contentId, order)] + queue[k..];
    var r := seq(|placed|, i requires 0 <= i < |placed| => placed[i].(rank := i + 1));
    assert ContentIds(r) == ContentIds(queue)[..k] + [contentId] + ContentIds(queue)[k..];
    assert ContentIds(r)[..k] == ContentIds(queue)[..k];
    assert ContentIds(r)[k + 1..] == ContentIds(queue)[k..];
    r
  }

  /**
   * insertQueueAndRenumber: put the record in place, then rewrite every rank
   * in one pass over the list.
   */
  method InsertQueueAndRenumber(queue: seq<QueueRecord>, contentId: int, order: int) returns (updated: seq<QueueRecord>)
    requires order >= 1
    ensures updated == QueueAfterInsert(queue, contentId, order)
  {
    var newRecord := QueueRecord(contentId, order);
    if order > |queue| {
      updated := queue + [newRecord];
    } else {
      var newOrder := if |queue| + 1 < order then |queue| + 1 else order;
      updated := queue[..newOrder - 1] + [newRecord] + queue[newOrder - 1..];
    }
    ghost var placed := updated;
    var index := 1;
    while index <= |updated|
      invariant 1 <= index <= |updated| + 1
      invariant |updated| == |placed|
      invariant forall i :: 0 <= i < index - 1 ==> updated[i] == placed[i].(rank := i + 1)
      invariant forall i :: index - 1 <= i < |updated| ==> updated[i] == placed[i]
    {
      updated := updated[index - 1 := updated[index - 1].(rank := index)];
      index := index + 1;
    }
  }

  /** The rank addContentToQueue asks for: after the last rank at the bottom, else 2 while a download runs, else 1. */
  function TargetRank(queue: seq<QueueRecord>, position: QueuePosition, isQueueActive: bool): (order: int)
    ensures position == Bottom ==> order == MaxOf(Ranks(queue)) + 1
    ensures position == Bottom ==> forall i :: 0 <= i < |queue| ==> queue[i].rank < order
    ensures position == Bottom && queue == [] ==> order == 1
    ensures position == Top ==> order == (if isQueueActive then 2 else 1)
  {
    if position == Bottom then
      var ranks := Ranks(queue);
      assert forall i :: 0 <= i < |queue| ==> ranks[i] == queue[i].rank;
      MaxOf(ranks) + 1
    else if isQueueActive then 2 else 1
  }

  /** In a queue that keeps its invariant the largest rank is the queue length. */
  lemma {:induction false} MaxRankIsLength(queue: seq<QueueRecord>)
    requires ContiguousRanks(queue)
    ensures MaxOf(Ranks(queue)) == |queue|
  {
    if queue != [] {
      var m := MaxOf(Ranks(queue));
      assert Ranks(queue)[|queue| - 1] == |queue|;
      assert m in Ranks(queue);
    }
  }

  /**
   * Where the new book ends up: last for the bottom position, second (below
   * the running download) for the top position of an active queue, first
   * otherwise.
   */
  lemma TargetIndexOf(queue: seq<QueueRecord>, position: QueuePosition, isQueueActive: bool)
    requires ContiguousRanks(queue)
    ensures TargetRank(queue, position, isQueueActive) >= 1
    ensures var k := InsertIndex(|queue|, TargetRank(queue, position, isQueueActive));
            k == if position == Bottom then |queue|
                 else if isQueueActive then (if |queue| == 0 then 0 else 1)
                 else 0
  {
    MaxRankIsLength(queue);
  }

  /**
   * Example: with A downloading at rank 1 and C at rank 2, a book D added at
   * the top goes between them and the ranks stay 1..3.
   */
  lemma InsertBelowActiveDownload(a: int, c: int, d: int)
    ensures var queue := [QueueRecord(a, 1), QueueRecord(c, 2)];
            var r := QueueAfterInsert(queue, d, TargetRank(queue, Top, true));
            r == [QueueRecord(a, 1), QueueRecord(d, 2), QueueRecord(c, 3)]
  {
    var queue := [QueueRecord(a, 1), QueueRecord(c, 2)];
    var r := QueueAfterInsert(queue, d, 2);
    assert ContentIds(r) == [a, d, c];
    assert r[0].contentId == a && r[1].contentId == d && r[2].contentId == c;
  }
}
