/** `KnapsackItem`: a weight, a value and an identity.

    The constructor draws the identity with `new Random().nextInt()`; the model
    takes it as an argument and does not assume identities are distinct.
    `equals` compares identities only, so the `java.util.List` operations that
    go through `equals` — `contains` and `remove(Object)` — are modelled here
    with identity comparison as well. */
module KnapsackItem {

  datatype Item = Item(itemId: int, weight: int, value: int)

  /** The argument of `equals(Object)`: an item, or any other object. */
  datatype Object = ItemObject(item: Item) | OtherObject

  /** `new KnapsackItem(weight, value)` with the drawn identity `itemId`; the
      getters read back what was given. */
  function New(itemId: int, weight: int, value: int): (r: Item)
    ensures r.weight == weight && r.value == value
    ensures r.itemId == itemId
  {
    Item(itemId, weight, value)
  }

  /** `equals(o)`: the same reference is equal, a non-item never is, and two
      items are equal when their identities are; weight and value play no part. */
  predicate Equals(x: Item, o: Object)
    ensures o == ItemObject(x) ==> Equals(x, o)
    ensures o.OtherObject? ==> !Equals(x, o)
  {
    match o
    case OtherObject => false
    case ItemObject(y) => x.itemId == y.itemId
  }

  /** Equality ignores weight and value: items with the same identity are
      equal to the same objects. */
  lemma EqualsIgnoresWeightAndValue(x: Item, y: Item, o: Object)
    requires x.itemId == y.itemId
    ensures Equals(x, o) <==> Equals(y, o)
    ensures Equals(x, ItemObject(y)) && Equals(y, ItemObject(x))
  {
  }

  /** `list.contains(x)`: some element is equal to `x`. */
  predicate Contains(s: seq<Item>, x: Item)
  {
    exists i :: 0 <= i < |s| && Equals(x, ItemObject(s[i]))
  }

  /** No two elements of `s` are equal. */
  predicate DistinctIds(s: seq<Item>)
  {
    forall i, j :: 0 <= i < j < |s| ==> s[i].itemId != s[j].itemId
  }

  /** `Contains` on a non-empty list looks at the head, then the tail. */
  lemma ContainsUnfold(s: seq<Item>, x: Item)
    requires |s| > 0
    ensures Contains(s, x) <==> Equals(x, ItemObject(s[0])) || Contains(s[1..], x)
  {
    if Contains(s, x) && !Equals(x, ItemObject(s[0])) {
      var i :| 0 <= i < |s| && Equals(x, ItemObject(s[i]));
      assert Equals(x, ItemObject(s[1..][i - 1]));
    }
    if Contains(s[1..], x) {
      var i :| 0 <= i < |s[1..]| && Equals(x, ItemObject(s[1..][i]));
      assert Equals(x, ItemObject(s[i + 1]));
    }
  }

  /** `list.remove(x)`: drops the first element equal to `x`, if any. */
  function Remove(s: seq<Item>, x: Item): (r: seq<Item>)
    ensures |r| == if Contains(s, x) then |s| - 1 else |s|
    ensures !Contains(s, x) ==> r == s
    ensures multiset(r) <= multiset(s)
  {
    if |s| == 0 then []
    else
      ContainsUnfold(s, x);
      assert s == [s[0]] + s[1..];
      if Equals(x, ItemObject(s[0])) then s[1..]
      else [s[0]] + Remove(s[1..], x)
  }

  /** `Remove` only ever drops elements. */
  lemma RemoveSubset(s: seq<Item>, x: Item)
    ensures forall y :: y in Remove(s, x) ==> y in s
  {
    forall y | y in Remove(s, x)
      ensures y in s
    {
      assert y in multiset(Remove(s, x));
    }
  }

  /** A list with a head has distinct identities when its tail has and the
      head's identity does not occur in the tail. */
  lemma DistinctIdsCons(y: Item, t: seq<Item>)
    ensures DistinctIds([y] + t) <==> DistinctIds(t) && forall z :: z in t ==> z.itemId != y.itemId
  {
    var s := [y] + t;
    if DistinctIds(s) {
      forall i, j | 0 <= i < j < |t|
        ensures t[i].itemId != t[j].itemId
      {
        assert s[i + 1] == t[i] && s[j + 1] == t[j];
      }
      forall z | z in t
        ensures z.itemId != y.itemId
      {
        var k :| 0 <= k < |t| && t[k] == z;
        assert s[0] == y && s[k + 1] == z;
        assert s[0].itemId != s[k + 1].itemId;
      }
    }
  }

  /** Removing from a list without repeated identities keeps it so. */
  lemma {:induction false} RemoveKeepsDistinct(s: seq<Item>, x: Item)
    requires DistinctIds(s)
    ensures DistinctIds(Remove(s, x))
  {
    if |s| > 0 {
      assert s == [s[0]] + s[1..];
      DistinctIdsCons(s[0], s[1..]);
      if !Equals(x, ItemObject(s[0])) {
        RemoveKeepsDistinct(s[1..], x);
        RemoveSubset(s[1..], x);
        DistinctIdsCons(s[0], Remove(s[1..], x));
      }
    }
  }

  /** In a list without repeated identities, removing a present element
      removes exactly that element. */
  lemma {:induction false} RemoveExact(s: seq<Item>, x: Item)
    requires DistinctIds(s)
    requires x in s
    ensures multiset(Remove(s, x)) == multiset(s) - multiset{x}
  {
    assert s == [s[0]] + s[1..];
    if Equals(x, ItemObject(s[0])) {
      var k :| 0 <= k < |s| && s[k] == x;
      assert k == 0;
    } else {
      assert x != s[0];
      RemoveExact(s[1..], x);
    }
  }

  /** In a list without repeated identities, once a present element is
      removed no element with its identity is left. */
  lemma {:induction false} RemoveDropsId(s: seq<Item>, x: Item)
    requires DistinctIds(s)
    requires x in s
    ensures forall z :: z in Remove(s, x) ==> z.itemId != x.itemId
  {
    assert s == [s[0]] + s[1..];
    DistinctIdsCons(s[0], s[1..]);
    if !Equals(x, ItemObject(s[0])) {
      assert x != s[0];
      RemoveDropsId(s[1..], x);
    }
  }

  /** `s[k]` is the first element of `s` equal to `x`. */
  predicate FirstMatch(s: seq<Item>, x: Item, k: int)
  {
    0 <= k < |s| && Equals(x, ItemObject(s[k])) && forall j :: 0 <= j < k ==> !Equals(x, ItemObject(s[j]))
  }

  /** `Remove` drops exactly the first element equal to `x`: the elements
      before it and after it are kept, in order. */
  lemma {:induction false} RemoveDropsFirst(s: seq<Item>, x: Item)
    requires Contains(s, x)
    ensures exists k :: FirstMatch(s, x, k) && Remove(s, x) == s[..k] + s[k + 1..]
  {
    if Equals(x, ItemObject(s[0])) {
      assert FirstMatch(s, x, 0) && Remove(s, x) == s[..0] + s[0 + 1..];
    } else {
      ContainsUnfold(s, x);
      RemoveDropsFirst(s[1..], x);
      var k :| FirstMatch(s[1..], x, k) && Remove(s[1..], x) == s[1..][..k] + s[1..][k + 1..];
      RemoveSkipsHead(s, x, k);
    }
  }

  /** The step of `RemoveDropsFirst` past a head that is not equal to `x`. */
  lemma RemoveSkipsHead(s: seq<Item>, x: Item, k: int)
    requires |s| > 0 && !Equals(x, ItemObject(s[0]))
    requires FirstMatch(s[1..], x, k) && Remove(s[1..], x) == s[1..][..k] + s[1..][k + 1..]
    ensures FirstMatch(s, x, k + 1) && Remove(s, x) == s[..k + 1] + s[k + 1 + 1..]
  {
    var t := s[1..];
    forall j | 0 <= j < k + 1
      ensures !Equals(x, ItemObject(s[j]))
    {
      if j > 0 {
        assert s[j] == t[j - 1];
      }
    }
    assert Remove(s, x) == [s[0]] + (t[..k] + t[k + 1..]);
    ConsSlices(s, k);
  }

  /** Cutting `s[k + 1]` out of `s` is keeping its head and cutting `s[1..][k]`
      out of the tail. */
  lemma ConsSlices(s: seq<Item>, k: int)
    requires 0 <= k < |s| - 1
    ensures [s[0]] + (s[1..][..k] + s[1..][k + 1..]) == s[..k + 1] + s[k + 2..]
  {
    assert s[1..][..k] == s[1..k + 1];
    assert s[1..][k + 1..] == s[k + 2..];
    assert s[..k + 1] == [s[0]] + s[1..k + 1];
  }
}
