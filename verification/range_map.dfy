/** RangeMap: ranges that do not overlap, kept by their high addresses. */
module RangeMaps {
  import opened Addresses
  import opened Options
  import opened RangeTree

  function Highs<E>(items: seq<Item<E>>): (keys: seq<int>)
    ensures |keys| == |items| && forall i | 0 <= i < |keys| :: keys[i] == items[i].high
  {
    seq(|items|, i requires 0 <= i < |items| => items[i].high)
  }

  ghost predicate Ordered<E>(items: seq<Item<E>>) {
    && (forall i | 0 <= i < |items| :: items[i].base <= items[i].high)
    && forall i, j | 0 <= i < j < |items| :: items[i].high < items[j].base
  }

  predicate Apart<E>(x: Item<E>, base: int, high: int) {
    x.high < base || high < x.base
  }

  /** StoreRange: the map with the range, unless that is empty, runs past the address space or overlaps another. */
  function StoreRange<E>(items: seq<Item<E>>, base: Address, size: Address, entry: E): Option<seq<Item<E>>> {
    var high := Sub(Add(base, size), 1);
    if size == 0 || high < base then None else Place(items, Item(base, high, entry))
  }

  function Place<E>(items: seq<Item<E>>, x: Item<E>): Option<seq<Item<E>>> {
    var b, h := LowerBound(Highs(items), x.base), LowerBound(Highs(items), x.high);
    if b != h || (h < |items| && items[h].base <= x.high) then None
    else Some(items[..h] + [x] + items[h..])
  }

  function RetrieveRange<E>(items: seq<Item<E>>, address: Address): Option<Item<E>> {
    var i := LowerBound(Highs(items), address);
    if i == |items| || address < items[i].base then None else Some(items[i])
  }

  /** The place for a range is free exactly if the range is apart from all there are. */
  lemma PlaceIsFree<E>(items: seq<Item<E>>, base: int, high: int)
    requires Ordered(items) && base <= high
    ensures var b, h := LowerBound(Highs(items), base), LowerBound(Highs(items), high);
            b == h && !(h < |items| && items[h].base <= high) <==> forall x | x in items :: Apart(x, base, high)
  {
    var b, h := LowerBound(Highs(items), base), LowerBound(Highs(items), high);
    LowerBoundMonotone(Highs(items), base, high);
    if b != h {
      assert Highs(items)[b] < high;
      assert items[b] in items && !Apart(items[b], base, high);
    } else if h < |items| && items[h].base <= high {
      assert items[h] in items && !Apart(items[h], base, high);
    } else {
      forall x | x in items ensures Apart(x, base, high) {
        var i :| 0 <= i < |items| && items[i] == x;
        assert i < h ==> Highs(items)[i] < base;
        assert h < i ==> items[h].high < items[i].base;
      }
    }
  }

  lemma InsertedIsOrdered<E>(items: seq<Item<E>>, h: nat, x: Item<E>)
    requires Ordered(items) && h <= |items| && x.base <= x.high
    requires forall i | 0 <= i < h :: items[i].high < x.base
    requires h < |items| ==> x.high < items[h].base
    ensures Ordered(items[..h] + [x] + items[h..])
    ensures forall y :: y in items[..h] + [x] + items[h..] <==> y in items || y == x
  {
    var r := items[..h] + [x] + items[h..];
    forall p, q | 0 <= p < q < |r| ensures r[p].high < r[q].base {
      if p == h {
        assert r[q] == items[q - 1];
        assert q - 1 > h ==> items[h].high < items[q - 1].base;
      } else if p > h {
        assert r[p] == items[p - 1] && r[q] == items[q - 1];
      }
    }
    assert items == items[..h] + items[h..] && r[h] == x;
  }

  /** A range is refused exactly if it overlaps another; otherwise the map stays in order and gains just that range. */
  ghost predicate IsPlaced<E(!new)>(items: seq<Item<E>>, x: Item<E>, result: Option<seq<Item<E>>>) {
    match result
    case None => exists y :: y in items && !Apart(y, x.base, x.high)
    case Some(after) =>
      && (forall y | y in items :: Apart(y, x.base, x.high))
      && Ordered(after) && forall y :: y in after <==> y in items || y == x
  }

  lemma PlaceIsRight<E(!new)>(items: seq<Item<E>>, x: Item<E>)
    requires Ordered(items) && x.base <= x.high
    ensures IsPlaced(items, x, Place(items, x))
  {
    PlaceIsFree(items, x.base, x.high);
    var h := LowerBound(Highs(items), x.high);
    if Place(items, x).Some? {
      assert forall i | 0 <= i < h :: items[i].high == Highs(items)[i];
      InsertedIsOrdered(items, h, x);
    }
  }

  /** The check for an overflow, in wrapping arithmetic. */
  lemma StoreRangeIsPlace<E>(items: seq<Item<E>>, base: Address, size: Address, entry: E)
    ensures StoreRange(items, base, size, entry)
         == if size == 0 || base + size > ADDRESS_LIMIT then None else Place(items, Item(base, base + size - 1, entry))
  {
  }

  lemma StoreRangeIsRight<E(!new)>(items: seq<Item<E>>, base: Address, size: Address, entry: E)
    requires Ordered(items)
    ensures var result := StoreRange(items, base, size, entry);
            if size == 0 || base + size > ADDRESS_LIMIT then result == None
            else IsPlaced(items, Item(base, base + size - 1, entry), result)
  {
    StoreRangeIsPlace(items, base, size, entry);
    if size > 0 && base + size <= ADDRESS_LIMIT { PlaceIsRight(items, Item(base, base + size - 1, entry)); }
  }

  lemma RetrieveRangeIsRight<E>(items: seq<Item<E>>, address: Address)
    requires Ordered(items)
    ensures match RetrieveRange(items, address)
            case Some(x) => x in items && x.Has(address) && forall y | y in items && y.Has(address) :: y == x
            case None => forall y | y in items :: !y.Has(address)
  {
    var i := LowerBound(Highs(items), address);
    forall y | y in items && y.Has(address) ensures i < |items| && y == items[i] {
      var j :| 0 <= j < |items| && items[j] == y;
      assert Highs(items)[j] >= address;
    }
  }
}
