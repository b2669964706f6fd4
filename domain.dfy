/**
 * Entities of the library database shared by the DAO, the library screen,
 * the metadata editor and the legacy search task, plus a few sequence
 * helpers they all use.
 *
 * Entities are values here; a reference from one entity to another
 * (a group's cover content, a group item's group and content) is an id,
 * and the id 0 stands for "no target", as an ObjectBox ToOne does.
 */
module Domain {

  datatype Option<T> = None | Some(value: T)

  /** Lifecycle states of a book; only PAUSED is written by the modelled code. */
  datatype StatusContent = Saved | Downloading | Paused | Downloaded | Error | Migrated | Online | Placeholder

  datatype AttributeType = Artist | Circle | Tag | Language | Series | Character | Category | Uploader | Source

  /** A tag, artist, source, ... Two attributes are the same attribute when all three fields agree. */
  datatype Attribute = Attribute(id: int, attrType: AttributeType, name: string)

  /** One page (or the cover) of a book. */
  datatype ImageFile = ImageFile(order: int, url: string, isCover: bool, status: StatusContent)

  /** A book. */
  datatype Content = Content(
    id: int,
    title: string,
    status: StatusContent,
    isBeingDeleted: bool,
    contentIdToReplace: int,
    downloadDate: int,
    coverImageUrl: string,
    attributes: seq<Attribute>,
    imageFiles: seq<ImageFile>)

  /** The sort fields of the preferences (Preferences.Constant.ORDER_FIELD_*). */
  datatype SortField =
    | FieldNone | FieldTitle | FieldArtist | FieldNbPages | FieldDownloadDate
    | FieldReadDate | FieldReads | FieldSize | FieldCustom | FieldRandom
    | FieldChildren | FieldDownloadProcessingDate

  /** Largest element of `s`, or 0 for an empty sequence (what the store's max queries answer on an empty scope). */
  function MaxOf(s: seq<int>): (m: int)
    ensures s == [] ==> m == 0
    ensures s != [] ==> m in s
    ensures forall i :: 0 <= i < |s| ==> s[i] <= m
  {
    if s == [] then 0
    else if |s| == 1 then s[0]
    else
      var rest := MaxOf(s[1..]);
      if s[0] >= rest then s[0] else rest
  }

  /** Ceiling of `a / b` on naturals, the integer form of `Math.ceil(a * 1.0 / b)`. */
  function CeilDiv(a: nat, b: nat): (r: nat)
    requires b > 0
    ensures r * b >= a
    ensures r * b < a + b
  {
    (a + b - 1) / b
  }

  /** A positive multiple of `q` is at least `q`. */
  lemma {:induction false} MulAtLeast(k: int, q: int)
    requires k >= 1 && q > 0
    ensures k * q >= q
  {
    if k > 1 {
      MulAtLeast(k - 1, q);
      assert k * q == (k - 1) * q + q;
    }
  }

  /** A whole number of `q`s leaves no remainder when divided by `q`. */
  lemma MultipleHasNoRemainder(p: nat, q: nat)
    requires q > 0
    ensures (p * q) % q == 0
  {
    var x := p * q;
    var d, r := x / q, x % q;
    assert x == d * q + r;
    assert (p - d) * q == r by {
      assert (p - d) * q == p * q - d * q;
    }
    if p - d >= 1 {
      MulAtLeast(p - d, q);
    } else if p - d <= -1 {
      MulAtLeast(d - p, q);
    }
  }

  /** Multiplying by a non-negative number keeps the order. */
  lemma MulMonotone(a: int, b: int, q: int)
    requires a <= b && q >= 0
    ensures a * q <= b * q
  {
    assert b * q - a * q == (b - a) * q;
    if a < b && q > 0 {
      MulAtLeast(b - a, q);
    }
  }

  /** A strict order between two multiples of the same positive number is an order between the factors. */
  lemma MulCancelLess(a: int, b: int, q: int)
    requires q > 0 && a * q < b * q
    ensures a < b
  {
    if a >= b {
      MulMonotone(b, a, q);
    }
  }

  /** `s` with the first element equal to `x` taken out, as `List.remove(Object)` does. */
  function RemoveFirst<T(==)>(s: seq<T>, x: T): (r: seq<T>)
    ensures x in s ==> |r| == |s| - 1
    ensures x !in s ==> r == s
  {
    if s == [] then []
    else if s[0] == x then s[1..]
    else [s[0]] + RemoveFirst(s[1..], x)
  }

  /** Position of the first occurrence of `x` in `s`. */
  function IndexOf<T(==)>(s: seq<T>, x: T): (k: nat)
    requires x in s
    ensures k < |s| && s[k] == x && x !in s[..k]
  {
    if s[0] == x then 0
    else
      var k := IndexOf(s[1..], x);
      assert s[..k + 1] == [s[0]] + s[1..][..k];
      k + 1
  }

  /** Only the first occurrence goes: everything before it and everything after it stays, in order. */
  lemma {:induction false} RemoveFirstKeepsOrder<T>(s: seq<T>, x: T)
    requires x in s
    ensures RemoveFirst(s, x) == s[..IndexOf(s, x)] + s[IndexOf(s, x) + 1..]
  {
    if s[0] == x {
      assert IndexOf(s, x) == 0;
    } else {
      var t := s[1..];
      RemoveFirstKeepsOrder(t, x);
      var k := IndexOf(t, x);
      assert IndexOf(s, x) == k + 1;
      assert RemoveFirst(s, x) == [s[0]] + RemoveFirst(t, x);
      assert s[..k + 1] == [s[0]] + t[..k];
      assert s[k + 2..] == t[k + 1..];
    }
  }

  /** The first occurrence of an element that occurs in a prefix is the one in that prefix. */
  lemma IndexOfPrefix<T>(s: seq<T>, m: nat, y: T)
    requires m <= |s| && y in s[..m]
    ensures y in s && IndexOf(s, y) == IndexOf(s[..m], y)
  {
    var k, k' := IndexOf(s, y), IndexOf(s[..m], y);
    assert s[..m][k'] == s[k'];
  }

  /** Exactly one occurrence of `x` is removed and nothing else. */
  lemma {:induction false} RemoveFirstMultiset<T>(s: seq<T>, x: T)
    ensures multiset(RemoveFirst(s, x)) == multiset(s) - multiset{x}
  {
    if s != [] {
      assert s == [s[0]] + s[1..];
      if s[0] != x {
        RemoveFirstMultiset(s[1..], x);
      }
    }
  }
}
