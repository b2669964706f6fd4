/**
 * The bulk metadata editor: the books selected for editing, the attributes
 * they carry with how many times each occurs, and the edits applied to all
 * selected books at once (add or remove an attribute, set the title) or to
 * the first one (choose its cover page).
 *
 * The store lookup that loads the books is a parameter. Posting a value to a
 * LiveData is modelled as assigning the field.
 */
module MetadataEdit {
  import opened Domain

  /** An attribute as displayed by the editor, with its number of occurrences among the selected books. */
  datatype AttributeCount = AttributeCount(attribute: Attribute, count: nat)

  // ---------------------------------------------------------------- loading

  /** The ids worth asking the store for: the positive ones, in order. */
  function RequestedIds(ids: seq<int>): (r: seq<int>)
    ensures forall x :: x in r <==> x in ids && x > 0
    ensures |r| <= |ids|
    ensures ids == [] ==> r == []
    ensures |ids| == 1 ==> r == if ids[0] > 0 then [ids[0]] else []
  {
    if ids == [] then []
    else if ids[0] > 0 then [ids[0]] + RequestedIds(ids[1..])
    else RequestedIds(ids[1..])
  }

  /** The filter works id by id: the ids kept from `a + b` are those kept from `a`, then those kept from `b`. */
  lemma {:induction false} RequestedIdsAppend(a: seq<int>, b: seq<int>)
    ensures RequestedIds(a + b) == RequestedIds(a) + RequestedIds(b)
  {
    if a == [] {
      assert a + b == b;
    } else {
      RequestedIdsAppend(a[1..], b);
      assert (a + b)[1..] == a[1..] + b;
    }
  }

  /** Every attribute of every book, book after book. */
  function AllAttributes(contents: seq<Content>): (r: seq<Attribute>)
    ensures forall a :: a in r <==> exists i :: 0 <= i < |contents| && a in contents[i].attributes
    ensures contents == [] ==> r == []
    ensures |contents| == 1 ==> r == contents[0].attributes
  {
    if contents == [] then []
    else
      var init := contents[..|contents| - 1];
      assert forall i :: 0 <= i < |init| ==> init[i] == contents[i];
      AllAttributes(init) + contents[|contents| - 1].attributes
  }

  /** Collecting works book by book: the attributes of `a + b` are those of `a`, then those of `b`, repeats kept. */
  lemma {:induction false} AllAttributesAppend(a: seq<Content>, b: seq<Content>)
    ensures AllAttributes(a + b) == AllAttributes(a) + AllAttributes(b)
    decreases |b|
  {
    if b == [] {
      assert a + b == a;
    } else {
      var init := b[..|b| - 1];
      AllAttributesAppend(a, init);
      assert (a + b)[..|a + b| - 1] == a + init;
      assert (a + b)[|a + b| - 1] == b[|b| - 1];
    }
  }

  /** Each attribute of `s` once, in order of first occurrence (DistinctFirstOccurrenceOrder). */
  function Distinct(s: seq<Attribute>): (r: seq<Attribute>)
    ensures forall a :: a in r <==> a in s
    ensures forall i, j :: 0 <= i < j < |r| ==> r[i] != r[j]
  {
    if s == [] then []
    else
      var d := Distinct(s[..|s| - 1]);
      assert forall a :: a in s <==> a in s[..|s| - 1] || a == s[|s| - 1];
      if s[|s| - 1] in d then d else d + [s[|s| - 1]]
  }

  /** Distinct keeps the order in which the attributes first occur in `s`. */
  lemma {:induction false} DistinctFirstOccurrenceOrder(s: seq<Attribute>)
    ensures forall a :: a in Distinct(s) ==> a in s
    ensures forall i, j :: 0 <= i < j < |Distinct(s)| ==> IndexOf(s, Distinct(s)[i]) < IndexOf(s, Distinct(s)[j])
  {
    if s != [] {
      var p := s[..|s| - 1];
      var x := s[|s| - 1];
      var d := Distinct(p);
      DistinctFirstOccurrenceOrder(p);
      forall y | y in d
        ensures IndexOf(s, y) == IndexOf(p, y) < |s| - 1
      {
        IndexOfPrefix(s, |s| - 1, y);
      }
      if x !in d {
        assert x !in p;
        assert IndexOf(s, x) == |s| - 1;
        var r := d + [x];
        assert forall a :: a in r ==> a in s by {
          assert forall a :: a in p ==> a in s;
        }
        forall i, j | 0 <= i < j < |r|
          ensures IndexOf(s, r[i]) < IndexOf(s, r[j])
        {
          assert r[i] in d;
          if j < |d| {
            assert r[j] in d;
          }
        }
      }
    }
  }

  /**
   * The attribute counts of loadContent: one entry per distinct attribute,
   * in the order of Distinct (first occurrence), counting how often it occurs in `raw`.
   */
  function AttributeCounts(raw: seq<Attribute>): (r: seq<AttributeCount>)
    ensures forall a :: (exists i :: 0 <= i < |r| && r[i].attribute == a) <==> a in raw
    ensures forall i :: 0 <= i < |r| ==> r[i].count == multiset(raw)[r[i].attribute] && r[i].count >= 1
    ensures forall i, j :: 0 <= i < j < |r| ==> r[i].attribute != r[j].attribute
    ensures |r| == |Distinct(raw)| && forall i :: 0 <= i < |r| ==> r[i].attribute == Distinct(raw)[i]
  {
    var d := Distinct(raw);
    var r := seq(|d|, i requires 0 <= i < |d| => AttributeCount(d[i], multiset(raw)[d[i]]));
    forall i | 0 <= i < |r| ensures r[i].attribute == d[i] && d[i] in multiset(raw) {
      assert d[i] in d;
    }
    assert forall a :: a in d ==> exists i :: 0 <= i < |r| && r[i].attribute == a by {
      forall a | a in d ensures exists i :: 0 <= i < |r| && r[i].attribute == a {
        var i :| 0 <= i < |d| && d[i] == a;
        assert r[i].attribute == a;
      }
    }
    r
  }

  // ---------------------------------------------------------------- cover

  /** Index of the last image whose page order is `order`, or -1 when no image has it. */
  function LastMatchIndex(images: seq<ImageFile>, order: int): (k: int)
    ensures -1 <= k < |images|
    ensures k == -1 ==> forall i :: 0 <= i < |images| ==> images[i].order != order
    ensures k >= 0 ==> images[k].order == order && forall j :: k < j < |images| ==> images[j].order != order
  {
    if images == [] then -1
    else if images[|images| - 1].order == order then |images| - 1
    else LastMatchIndex(images[..|images| - 1], order)
  }

  /** The url of the last image whose page order is `order`, or `current` when no image has it. */
  function LastMatchingUrl(images: seq<ImageFile>, order: int, current: string): (url: string)
    ensures (forall i :: 0 <= i < |images| ==> images[i].order != order) ==> url == current
    ensures forall k :: (0 <= k < |images| && images[k].order == order
                         && forall j :: k < j < |images| ==> images[j].order != order) ==> url == images[k].url
  {
    var k := LastMatchIndex(images, order);
    if k < 0 then current else images[k].url
  }

  /** Extending the scanned pages by one: the url changes exactly when the new page matches. */
  lemma LastMatchingUrlStep(images: seq<ImageFile>, order: int, current: string, i: int)
    requires 0 <= i < |images|
    ensures LastMatchingUrl(images[..i + 1], order, current)
         == if images[i].order == order then images[i].url else LastMatchingUrl(images[..i], order, current)
  {
    assert images[..i + 1][..i] == images[..i];
  }

  /** Every image flagged as cover exactly when its page order is `order`. */
  function FlagCover(images: seq<ImageFile>, order: int): (r: seq<ImageFile>)
    ensures |r| == |images|
    ensures forall i :: 0 <= i < |r| ==> (r[i].isCover <==> images[i].order == order)
    ensures forall i :: 0 <= i < |r| ==> r[i].(isCover := images[i].isCover) == images[i]
  {
    seq(|images|, i requires 0 <= i < |images| => images[i].(isCover := images[i].order == order))
  }

  /** The book once its page `order` is chosen as cover. */
  function WithCover(c: Content, order: int): (r: Content)
    ensures |r.imageFiles| == |c.imageFiles|
    ensures forall i :: 0 <= i < |r.imageFiles| ==> (r.imageFiles[i].isCover <==> c.imageFiles[i].order == order)
    ensures (forall i :: 0 <= i < |c.imageFiles| ==> c.imageFiles[i].order != order) ==> r.coverImageUrl == c.coverImageUrl
    ensures r.(imageFiles := c.imageFiles, coverImageUrl := c.coverImageUrl) == c
  {
    c.(imageFiles := FlagCover(c.imageFiles, order), coverImageUrl := LastMatchingUrl(c.imageFiles, order, c.coverImageUrl))
  }

  /**
   * When page orders are distinct and one page has the order asked for,
   * that page is the one and only cover and the book's cover url is its url.
   */
  lemma {:induction false} ExactlyOneCover(c: Content, order: int, k: int)
    requires forall i, j :: 0 <= i < j < |c.imageFiles| ==> c.imageFiles[i].order != c.imageFiles[j].order
    requires 0 <= k < |c.imageFiles| && c.imageFiles[k].order == order
    ensures WithCover(c, order).imageFiles[k].isCover
    ensures forall i :: 0 <= i < |c.imageFiles| && i != k ==> !WithCover(c, order).imageFiles[i].isCover
    ensures WithCover(c, order).coverImageUrl == c.imageFiles[k].url
  {
    var images := c.imageFiles;
    var last := LastMatchIndex(images, order);
    assert last == k;
  }

  // ---------------------------------------------------------------- attributes

  /** An attribute list after adding `toAdd` at the end and then removing one occurrence of `toRemove`. */
  function EditedAttributes(attrs: seq<Attribute>, toAdd: Option<Attribute>, toRemove: Option<Attribute>): (r: seq<Attribute>)
    ensures toRemove.None? ==> r == attrs + if toAdd.Some? then [toAdd.value] else []
    ensures toAdd.Some? && toRemove.None? ==> r[|r| - 1] == toAdd.value
    ensures var n := |attrs| + if toAdd.Some? then 1 else 0;
            |r| == if toRemove.Some? && (toRemove.value in attrs || toAdd == toRemove) then n - 1 else n
  {
    var added := if toAdd.Some? then attrs + [toAdd.value] else attrs;
    if toRemove.Some? then RemoveFirst(added, toRemove.value) else added
  }

  /** The edit changes the attributes by the added one and the removed one, and by nothing else. */
  lemma EditedAttributesMultiset(attrs: seq<Attribute>, toAdd: Option<Attribute>, toRemove: Option<Attribute>)
    ensures var added := if toAdd.Some? then multiset(attrs) + multiset{toAdd.value} else multiset(attrs);
            multiset(EditedAttributes(attrs, toAdd, toRemove))
              == if toRemove.Some? then added - multiset{toRemove.value} else added
  {
    var added := if toAdd.Some? then attrs + [toAdd.value] else attrs;
    if toRemove.Some? {
      RemoveFirstMultiset(added, toRemove.value);
    }
  }

  /** Adding an attribute and then removing it gives back the same attributes, up to order. */
  lemma AddThenRemove(attrs: seq<Attribute>, a: Attribute)
    ensures multiset(EditedAttributes(EditedAttributes(attrs, Some(a), None), None, Some(a))) == multiset(attrs)
  {
    EditedAttributesMultiset(attrs, Some(a), None);
    EditedAttributesMultiset(EditedAttributes(attrs, Some(a), None), None, Some(a));
  }

  /** Position of the first display entry for attribute `a`. */
  function EntryIndex(entries: seq<AttributeCount>, a: Attribute): (k: nat)
    requires exists i :: 0 <= i < |entries| && entries[i].attribute == a
    ensures k < |entries| && entries[k].attribute == a
    ensures forall j :: 0 <= j < k ==> entries[j].attribute != a
  {
    if entries[0].attribute == a then 0
    else
      var rest := entries[1..];
      assert exists i :: 0 <= i < |rest| && rest[i].attribute == a by {
        var i :| 0 <= i < |entries| && entries[i].attribute == a;
        assert rest[i - 1] == entries[i];
      }
      var k := EntryIndex(rest, a);
      assert forall j :: 1 <= j < k + 1 ==> entries[j] == rest[j - 1];
      k + 1
  }

  /**
   * The displayed list without its first entry for attribute `a`: the
   * entries before and after it stay, in order; without such an entry the
   * list is unchanged.
   */
  function RemoveEntry(entries: seq<AttributeCount>, a: Attribute): (r: seq<AttributeCount>)
    ensures (forall i :: 0 <= i < |entries| ==> entries[i].attribute != a) ==> r == entries
    ensures (exists i :: 0 <= i < |entries| && entries[i].attribute == a) ==>
              |r| == |entries| - 1
              && r == entries[..EntryIndex(entries, a)] + entries[EntryIndex(entries, a) + 1..]
  {
    if exists i :: 0 <= i < |entries| && entries[i].attribute == a then
      var k := EntryIndex(entries, a);
      entries[..k] + entries[k + 1..]
    else entries
  }

  // ---------------------------------------------------------------- the editor

  /** The editor's state. */
  class MetadataEditViewModel {
    /** The selected books; None until loaded. */
    var contentList: Option<seq<Content>>
    /** The attributes displayed for the selection. */
    var contentAttributes: seq<AttributeCount>

    /** Nothing loaded, no attribute displayed. */
    constructor ()
      ensures contentList == None && contentAttributes == []
    {
      contentList := None;
      contentAttributes := [];
    }

    /**
     * loadContent: the books with positive ids among `ids` are loaded, and
     * each distinct attribute among them is displayed once, with its number
     * of occurrences.
     */
    method LoadContent(ids: seq<int>, selectContent: seq<int> -> seq<Content>)
      modifies this
      ensures contentList == Some(selectContent(RequestedIds(ids)))
      ensures contentAttributes == AttributeCounts(AllAttributes(selectContent(RequestedIds(ids))))
    {
      var contents := selectContent(RequestedIds(ids));
      var rawAttrs: seq<Attribute> := [];
      var i := 0;
      while i < |contents|
        invariant 0 <= i <= |contents|
        invariant rawAttrs == AllAttributes(contents[..i])
      {
        assert contents[..i + 1][..i] == contents[..i];
        rawAttrs := rawAttrs + contents[i].attributes;
        i := i + 1;
      }
      assert contents[..i] == contents;
      contentList := Some(contents);
      contentAttributes := AttributeCounts(rawAttrs);
    }

    /**
     * setCover: with books loaded, the first one's page `order` becomes its
     * only cover page (the last such page's url its cover url) and the
     * selection is reduced to that book.
     */
    method SetCover(order: int)
      requires contentList.Some? ==> |contentList.value| >= 1
      modifies this`contentList
      ensures old(contentList).None? ==> contentList == None
      ensures old(contentList).Some? ==> contentList == Some([WithCover(old(contentList).value[0], order)])
    {
      if contentList.Some? {
        var content := contentList.value[0];
        var images := content.imageFiles;
        var url := content.coverImageUrl;
        var i := 0;
        while i < |images|
          modifies {}
          invariant 0 <= i <= |images| && |images| == |content.imageFiles|
          invariant forall j :: 0 <= j < i ==>
                      images[j] == content.imageFiles[j].(isCover := content.imageFiles[j].order == order)
          invariant forall j :: i <= j < |images| ==> images[j] == content.imageFiles[j]
          invariant url == LastMatchingUrl(content.imageFiles[..i], order, content.coverImageUrl)
        {
          LastMatchingUrlStep(content.imageFiles, order, content.coverImageUrl, i);
          if images[i].order == order {
            url := images[i].url;
          }
          images := images[i := images[i].(isCover := images[i].order == order)];
          i := i + 1;
        }
        assert content.imageFiles[..i] == content.imageFiles;
        assert images == FlagCover(content.imageFiles, order);
        contentList := Some([content.(imageFiles := images, coverImageUrl := url)]);
      }
    }

    /**
     * setAttr: the added attribute is displayed with the number of selected
     * books as its count, the removed one loses its first display entry, and
     * every selected book gets the same edit to its attributes.
     */
    method SetAttr(toAdd: Option<Attribute>, toRemove: Option<Attribute>)
      requires toAdd.Some? ==> contentList.Some?
      modifies this
      ensures var shown := if toAdd.Some? then old(contentAttributes) + [AttributeCount(toAdd.value, |old(contentList).value|)]
                           else old(contentAttributes);
              contentAttributes == if toRemove.Some? then RemoveEntry(shown, toRemove.value) else shown
      ensures old(contentList).None? ==> contentList == None
      ensures old(contentList).Some? ==>
                contentList.Some? && |contentList.value| == |old(contentList).value|
                && forall i :: 0 <= i < |contentList.value| ==>
                     contentList.value[i] == old(contentList).value[i].(
                       attributes := EditedAttributes(old(contentList).value[i].attributes, toAdd, toRemove))
    {
      var newAttrs := contentAttributes;
      if toAdd.Some? {
        newAttrs := newAttrs + [AttributeCount(toAdd.value, |contentList.value|)];
      }
      if toRemove.Some? {
        newAttrs := RemoveEntry(newAttrs, toRemove.value);
      }
      contentAttributes := newAttrs;

      if contentList.Some? {
        var contents := contentList.value;
        var i := 0;
        while i < |contents|
          modifies {}
          invariant 0 <= i <= |contents| && |contents| == |old(contentList).value|
          invariant forall j :: 0 <= j < i ==>
                      contents[j] == old(contentList).value[j].(
                        attributes := EditedAttributes(old(contentList).value[j].attributes, toAdd, toRemove))
          invariant forall j :: i <= j < |contents| ==> contents[j] == old(contentList).value[j]
        {
          var attrs := contents[i].attributes;
          if toAdd.Some? {
            attrs := attrs + [toAdd.value];
          }
          if toRemove.Some? {
            attrs := RemoveFirst(attrs, toRemove.value);
          }
          contents := contents[i := contents[i].(attributes := attrs)];
          i := i + 1;
        }
        contentList := Some(contents);
      }
    }

    /** addContentAttribute: setAttr with only an attribute to add. */
    method AddContentAttribute(attr: Attribute)
      requires contentList.Some?
      modifies this
      ensures contentAttributes == old(contentAttributes) + [AttributeCount(attr, |old(contentList).value|)]
      ensures contentList.Some? && |contentList.value| == |old(contentList).value|
      ensures forall i :: 0 <= i < |contentList.value| ==>
                contentList.value[i] == old(contentList).value[i].(attributes := old(contentList).value[i].attributes + [attr])
    {
      SetAttr(Some(attr), None);
    }

    /** removeContentAttribute: setAttr with only an attribute to remove. */
    method RemoveContentAttribute(attr: Attribute)
      modifies this
      ensures contentAttributes == RemoveEntry(old(contentAttributes), attr)
      ensures old(contentList).None? ==> contentList == None
      ensures old(contentList).Some? ==>
                contentList.Some? && |contentList.value| == |old(contentList).value|
                && forall i :: 0 <= i < |contentList.value| ==>
                     contentList.value[i] == old(contentList).value[i].(attributes := RemoveFirst(old(contentList).value[i].attributes, attr))
    {
      SetAttr(None, Some(attr));
    }

    /** setTitle: every selected book takes the title; the selection keeps its books and their order. */
    method SetTitle(value: string)
      modifies this`contentList
      ensures old(contentList).None? ==> contentList == None
      ensures old(contentList).Some? ==>
                contentList.Some? && |contentList.value| == |old(contentList).value|
                && forall i :: 0 <= i < |contentList.value| ==>
                     contentList.value[i] == old(contentList).value[i].(title := value)
    {
      if contentList.Some? {
        var contents := contentList.value;
        var i := 0;
        while i < |contents|
          invariant 0 <= i <= |contents| && |contents| == |old(contentList).value|
          invariant forall j :: 0 <= j < i ==> contents[j] == old(contentList).value[j].(title := value)
          invariant forall j :: i <= j < |contents| ==> contents[j] == old(contentList).value[j]
        {
          contents := contents[i := contents[i].(title := value)];
          i := i + 1;
        }
        contentList := Some(contents);
      }
    }
  }
}
