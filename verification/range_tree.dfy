/** Nested ranges as a value: what ContainedRangeMap stores, and how it must answer. */
module RangeTree {
  import opened Addresses
  import opened Options

  /** A stored range, with both ends included. */
  datatype Item<E> = Item(base: int, high: int, entry: E) {
    predicate Has(a: int) { base <= a <= high }
  }

  /** A range and the ranges nested in it, in ascending order. `high` is the key under which the range's
      parent keeps it. */
  datatype Tree<E> = Tree(high: int, base: int, entry: E, kids: seq<Tree<E>>) {
    function Top(): Item<E> { Item(base, high, entry) }
  }

  /** std::map::lower_bound: the position of the first key that is not less than `x`. */
  function LowerBound(keys: seq<int>, x: int): (at: nat)
    ensures at <= |keys|
    ensures forall i | 0 <= i < at :: keys[i] < x
    ensures at < |keys| ==> keys[at] >= x
  {
    if keys == [] || keys[0] >= x then 0 else 1 + LowerBound(keys[1..], x)
  }

  lemma {:induction false} LowerBoundMonotone(keys: seq<int>, x: int, y: int)
    requires x <= y
    ensures LowerBound(keys, x) <= LowerBound(keys, y)
  {
    if keys != [] && keys[0] < x { LowerBoundMonotone(keys[1..], x, y); }
  }

  function Keys<E>(kids: seq<Tree<E>>): (keys: seq<int>)
    ensures |keys| == |kids| && forall i | 0 <= i < |kids| :: keys[i] == kids[i].high
  {
    seq(|kids|, i requires 0 <= i < |kids| => kids[i].high)
  }

  // ---- The invariant

  /** Child `k` lies within [lo, hi], and is not all of it. */
  ghost predicate Nested<E>(k: Tree<E>, lo: int, hi: int) {
    lo <= k.base <= k.high <= hi && !(k.base == lo && k.high == hi)
  }

  /** Children lie properly inside their parent, siblings do not overlap, and keys ascend. */
  ghost predicate WellFormed<E>(kids: seq<Tree<E>>, lo: int, hi: int) {
    && (forall i | 0 <= i < |kids| :: Nested(kids[i], lo, hi))
    && (forall i, j | 0 <= i < j < |kids| :: kids[i].high < kids[j].base)
    && (forall i | 0 <= i < |kids| :: WellFormed(kids[i].kids, kids[i].base, kids[i].high))
  }

  /** The root has no range of its own: anything may be stored in it. */
  ghost predicate WellFormedRoot<E>(kids: seq<Tree<E>>) {
    WellFormed(kids, -1, ADDRESS_LIMIT)
  }

  /** `x` is among the ranges stored anywhere below. */
  ghost predicate Stores<E(!new)>(kids: seq<Tree<E>>, x: Item<E>) {
    exists i :: 0 <= i < |kids| && (x == kids[i].Top() || Stores(kids[i].kids, x))
  }

  /** The two ranges share no address, or one lies properly inside the other. */
  ghost predicate Compatible<E>(x: Item<E>, base: int, high: int) {
    || x.high < base || high < x.base
    || (x.base <= base && high <= x.high && !(x.base == base && x.high == high))
    || (base <= x.base && x.high <= high && !(x.base == base && x.high == high))
  }

  /** `after` stores what `kids` does, and `n`. */
  ghost predicate Adds<E(!new)>(after: seq<Tree<E>>, kids: seq<Tree<E>>, n: Item<E>) {
    forall x :: Stores(after, x) <==> x == n || Stores(kids, x)
  }

  /** No stored range overlaps [base, high] in part, or equals it. */
  ghost predicate AllCompatible<E(!new)>(kids: seq<Tree<E>>, base: int, high: int) {
    forall x | Stores(kids, x) :: Compatible(x, base, high)
  }

  // ---- The operations

  /** The part of StoreRange that decides at this level, with the positions lower_bound finds. */
  function StoreAmong<E>(kids: seq<Tree<E>>, b: nat, h: nat, base: int, high: int, entry: E): Option<seq<Tree<E>>>
    requires b <= h <= |kids|
  {
    var containsHigh := h < |kids| && high >= kids[h].base;
    if (b < |kids| && base > kids[b].base) || (containsHigh && high < kids[h].high) then None
    else
      var end := if containsHigh then h + 1 else h;
      Some(kids[..b] + [Tree(high, base, entry, kids[b..end])] + kids[end..])
  }

  /** StoreRange below a node, once the range has been found non-empty. */
  function Store<E>(kids: seq<Tree<E>>, base: int, high: int, entry: E): Option<seq<Tree<E>>>
    requires base <= high
  {
    var b := LowerBound(Keys(kids), base);
    var h := LowerBound(Keys(kids), high);
    LowerBoundMonotone(Keys(kids), base, high);
    if b == h && b < |kids| && base >= kids[b].base then
      if kids[b].base == base && kids[b].high == high then None
      else
        match Store(kids[b].kids, base, high, entry)
        case None => None
        case Some(inner) => Some(kids[b := kids[b].(kids := inner)])
    else
      StoreAmong(kids, b, h, base, high, entry)
  }

  /** RetrieveRange below a node. */
  function Retrieve<E>(kids: seq<Tree<E>>, address: int): Option<Item<E>> {
    var i := LowerBound(Keys(kids), address);
    if i == |kids| || address < kids[i].base then None
    else
      match Retrieve(kids[i].kids, address)
      case None => Some(kids[i].Top())
      case Some(x) => Some(x)
  }

  // ---- What storing does

  lemma {:induction false} StoredInBounds<E(!new)>(kids: seq<Tree<E>>, lo: int, hi: int, x: Item<E>)
    requires WellFormed(kids, lo, hi) && Stores(kids, x)
    ensures lo <= x.base <= x.high <= hi && !(x.base == lo && x.high == hi)
  {
    var i :| 0 <= i < |kids| && (x == kids[i].Top() || Stores(kids[i].kids, x));
    assert Nested(kids[i], lo, hi);
    if x != kids[i].Top() { StoredInBounds(kids[i].kids, kids[i].base, kids[i].high, x); }
  }

  /** Everything below child `i` stays within it. */
  lemma StoredInChild<E(!new)>(kids: seq<Tree<E>>, lo: int, hi: int, i: nat, x: Item<E>)
    requires WellFormed(kids, lo, hi) && i < |kids|
    requires x == kids[i].Top() || Stores(kids[i].kids, x)
    ensures kids[i].base <= x.base <= x.high <= kids[i].high
    ensures Stores(kids[i].kids, x) ==> !(x.base == kids[i].base && x.high == kids[i].high)
  {
    assert Nested(kids[i], lo, hi);
    if Stores(kids[i].kids, x) { StoredInBounds(kids[i].kids, kids[i].base, kids[i].high, x); }
  }

  /** A child's bounds settle whether the new range is compatible with everything in it: the child holds a
      range that overlaps the new one only in part exactly if the child itself does, when the new range
      does not lie inside the child. */
  lemma CompatibleOutside<E(!new)>(kids: seq<Tree<E>>, lo: int, hi: int, i: nat, base: int, high: int)
    requires WellFormed(kids, lo, hi) && i < |kids| && base <= high
    requires kids[i].high < base || high < kids[i].base
          || (base <= kids[i].base && kids[i].high <= high && !(base == kids[i].base && kids[i].high == high))
    ensures forall x | x == kids[i].Top() || Stores(kids[i].kids, x) :: Compatible(x, base, high)
  {
    forall x | x == kids[i].Top() || Stores(kids[i].kids, x) ensures Compatible(x, base, high) {
      StoredInChild(kids, lo, hi, i, x);
    }
  }

  /** The branch that hands the new range to a child. */
  lemma DescendAccepts<E(!new)>(kids: seq<Tree<E>>, lo: int, hi: int, b: nat, base: int, high: int)
    requires WellFormed(kids, lo, hi) && b < |kids|
    requires kids[b].base <= base <= high <= kids[b].high && !(kids[b].base == base && kids[b].high == high)
    ensures AllCompatible(kids, base, high) <==>
            AllCompatible(kids[b].kids, base, high)
  {
    if AllCompatible(kids, base, high) {
      forall x: Item<E> | Stores(kids[b].kids, x) ensures Compatible(x, base, high) {
        assert Stores(kids, x);
      }
    }
    if AllCompatible(kids[b].kids, base, high) {
      forall x: Item<E> | Stores(kids, x) ensures Compatible(x, base, high) {
        var i :| 0 <= i < |kids| && (x == kids[i].Top() || Stores(kids[i].kids, x));
        if i != b {
          assert i < b ==> kids[i].high < kids[b].base;
          assert b < i ==> kids[b].high < kids[i].base;
          CompatibleOutside(kids, lo, hi, i, base, high);
        }
      }
    }
  }

  lemma DescendStores<E(!new)>(kids: seq<Tree<E>>, lo: int, hi: int, b: nat, inner: seq<Tree<E>>, n: Item<E>)
    requires WellFormed(kids, lo, hi) && b < |kids|
    requires WellFormed(inner, kids[b].base, kids[b].high)
    requires Adds(inner, kids[b].kids, n)
    ensures WellFormed(kids[b := kids[b].(kids := inner)], lo, hi)
    ensures Adds(kids[b := kids[b].(kids := inner)], kids, n)
  {
    var after := kids[b := kids[b].(kids := inner)];
    forall i | 0 <= i < |after|
      ensures Nested(after[i], lo, hi) && WellFormed(after[i].kids, after[i].base, after[i].high)
    {
      assert Nested(kids[i], lo, hi);
    }
    forall x: Item<E> ensures Stores(after, x) <==> x == n || Stores(kids, x) {
      if Stores(after, x) {
        var i :| 0 <= i < |after| && (x == after[i].Top() || Stores(after[i].kids, x));
        assert x == kids[i].Top() || Stores(kids[i].kids, x) || x == n;
      }
      if x == n {
        assert Stores(after[b].kids, x);
      } else if Stores(kids, x) {
        var i :| 0 <= i < |kids| && (x == kids[i].Top() || Stores(kids[i].kids, x));
        assert x == after[i].Top() || Stores(after[i].kids, x);
      }
    }
  }

  lemma SliceIsWellFormed<E(!new)>(kids: seq<Tree<E>>, lo: int, hi: int, b: nat, end: nat, base: int, high: int)
    requires WellFormed(kids, lo, hi) && b <= end <= |kids|
    requires forall i | b <= i < end :: Nested(kids[i], base, high)
    ensures WellFormed(kids[b..end], base, high)
  {
    var some := kids[b..end];
    forall i | 0 <= i < |some|
      ensures Nested(some[i], base, high) && WellFormed(some[i].kids, some[i].base, some[i].high)
    {
      assert some[i] == kids[b + i] && Nested(kids[b + i], base, high);
    }
  }

  lemma AdoptAscends<E(!new)>(kids: seq<Tree<E>>, lo: int, hi: int, b: nat, end: nat, node: Tree<E>)
    requires WellFormed(kids, lo, hi) && b <= end <= |kids| && node.base <= node.high
    requires forall i | 0 <= i < b :: kids[i].high < node.base
    requires forall i | end <= i < |kids| :: node.high < kids[i].base
    ensures var after := kids[..b] + [node] + kids[end..];
            forall i, j | 0 <= i < j < |after| :: after[i].high < after[j].base
  {
    var after := kids[..b] + [node] + kids[end..];
    forall i, j | 0 <= i < j < |after| ensures after[i].high < after[j].base {
      if i != b && j != b {
        var i', j' := if i < b then i else end + (i - b - 1), if j < b then j else end + (j - b - 1);
        assert after[i] == kids[i'] && after[j] == kids[j'];
        assert i' < j';
        assert Nested(kids[i'], lo, hi) && Nested(kids[j'], lo, hi);
        assert kids[i'].high < kids[j'].base;
      }
    }
  }

  /** The branch that makes the new range a child, and the children [b, end) its own. */
  lemma AdoptIsWellFormed<E(!new)>(kids: seq<Tree<E>>, lo: int, hi: int, b: nat, end: nat, n: Item<E>)
    requires WellFormed(kids, lo, hi) && b <= end <= |kids|
    requires lo <= n.base <= n.high <= hi && !(n.base == lo && n.high == hi)
    requires forall i | 0 <= i < b :: kids[i].high < n.base
    requires forall i | end <= i < |kids| :: n.high < kids[i].base
    requires forall i | b <= i < end :: Nested(kids[i], n.base, n.high)
    ensures WellFormed(kids[..b] + [Tree(n.high, n.base, n.entry, kids[b..end])] + kids[end..], lo, hi)
  {
    var node := Tree(n.high, n.base, n.entry, kids[b..end]);
    var after := kids[..b] + [node] + kids[end..];
    SliceIsWellFormed(kids, lo, hi, b, end, n.base, n.high);
    AdoptAscends(kids, lo, hi, b, end, node);
    forall i | 0 <= i < |after|
      ensures Nested(after[i], lo, hi) && WellFormed(after[i].kids, after[i].base, after[i].high)
    {
      if i != b {
        var i' := if i < b then i else end + (i - b - 1);
        assert after[i] == kids[i'] && Nested(kids[i'], lo, hi);
      }
    }
  }

  lemma AdoptStores<E(!new)>(kids: seq<Tree<E>>, b: nat, end: nat, n: Item<E>)
    requires b <= end <= |kids|
    ensures Adds(kids[..b] + [Tree(n.high, n.base, n.entry, kids[b..end])] + kids[end..], kids, n)
  {
    var node := Tree(n.high, n.base, n.entry, kids[b..end]);
    var after := kids[..b] + [node] + kids[end..];
    forall x: Item<E> ensures Stores(after, x) <==> x == n || Stores(kids, x) {
      if Stores(after, x) {
        var i :| 0 <= i < |after| && (x == after[i].Top() || Stores(after[i].kids, x));
        if i < b {
          assert x == kids[i].Top() || Stores(kids[i].kids, x);
        } else if i > b {
          assert after[i] == kids[end + (i - b - 1)];
        } else if x != n {
          var m :| 0 <= m < |node.kids| && (x == node.kids[m].Top() || Stores(node.kids[m].kids, x));
          assert node.kids[m] == kids[b + m];
        }
      }
      if x == n {
        assert after[b] == node && x == node.Top();
      } else if Stores(kids, x) {
        var i :| 0 <= i < |kids| && (x == kids[i].Top() || Stores(kids[i].kids, x));
        if i < b {
          assert after[i] == kids[i];
        } else if i >= end {
          assert after[b + 1 + (i - end)] == kids[i];
        } else {
          assert node.kids[i - b] == kids[i];
          assert Stores(node.kids, x);
          assert after[b] == node;
        }
      }
    }
  }

  /** What storing must do: accept the range just if it is compatible with all that is stored, then store
      it and change nothing else, and keep the nesting as it should be. */
  ghost predicate Decides<E(!new)>(kids: seq<Tree<E>>, lo: int, hi: int, n: Item<E>, result: Option<seq<Tree<E>>>) {
    match result
    case None => !AllCompatible(kids, n.base, n.high)
    case Some(after) => AllCompatible(kids, n.base, n.high) && WellFormed(after, lo, hi) && Adds(after, kids, n)
  }

  /** Children before `b` end before `base`, child `b` does not, and likewise for `h` and `high`. */
  ghost predicate Brackets<E>(kids: seq<Tree<E>>, b: nat, h: nat, base: int, high: int) {
    && b <= h <= |kids|
    && (forall i | 0 <= i < b :: kids[i].high < base)
    && (forall i | b <= i < h :: kids[i].high < high)
    && (forall i | h < i < |kids| :: high < kids[i].base)
    && (forall i | b < i < |kids| :: base < kids[i].base)
    && (h < |kids| ==> high <= kids[h].high)
    && (b < |kids| ==> base <= kids[b].high)
  }

  /** The positions that lower_bound finds, in a well-formed node. */
  lemma Bounds<E(!new)>(kids: seq<Tree<E>>, lo: int, hi: int, base: int, high: int)
    requires WellFormed(kids, lo, hi) && base <= high
    ensures Brackets(kids, LowerBound(Keys(kids), base), LowerBound(Keys(kids), high), base, high)
  {
    var b, h := LowerBound(Keys(kids), base), LowerBound(Keys(kids), high);
    LowerBoundMonotone(Keys(kids), base, high);
    forall i | h < i < |kids| ensures high < kids[i].base { assert kids[h].high < kids[i].base; }
    forall i | b < i < |kids| ensures base < kids[i].base { assert kids[b].high < kids[i].base; }
  }

  /** StoreRange accepts a range exactly if it is compatible with everything stored; it then stores the
      range, and nothing else changes; and the nesting stays as it should be. */
  lemma {:induction false} StoreIsRight<E(!new)>(kids: seq<Tree<E>>, lo: int, hi: int, base: int, high: int, entry: E)
    requires WellFormed(kids, lo, hi)
    requires lo <= base <= high <= hi && !(base == lo && high == hi)
    ensures Decides(kids, lo, hi, Item(base, high, entry), Store(kids, base, high, entry))
    decreases kids
  {
    var b, h := LowerBound(Keys(kids), base), LowerBound(Keys(kids), high);
    Bounds(kids, lo, hi, base, high);
    if b == h && b < |kids| && base >= kids[b].base {
      if kids[b].base == base && kids[b].high == high {
        assert Stores(kids, kids[b].Top()) && !Compatible(kids[b].Top(), base, high);
      } else {
        StoreIsRight(kids[b].kids, kids[b].base, kids[b].high, base, high, entry);
        DescendAccepts(kids, lo, hi, b, base, high);
        var inner := Store(kids[b].kids, base, high, entry);
        if inner.Some? { DescendStores(kids, lo, hi, b, inner.value, Item(base, high, entry)); }
      }
    } else {
      StoreHere(kids, lo, hi, b, h, Item(base, high, entry));
    }
  }

  /** A range that overlaps a child only in part is refused. */
  lemma PartialOverlapIsRefused<E(!new)>(kids: seq<Tree<E>>, i: nat, base: int, high: int)
    requires i < |kids| && !Compatible(kids[i].Top(), base, high)
    ensures !AllCompatible(kids, base, high)
  {
    assert Stores(kids, kids[i].Top());
  }

  lemma PartialOverlap<E(!new)>(kids: seq<Tree<E>>, lo: int, hi: int, b: nat, h: nat, base: int, high: int)
    requires WellFormed(kids, lo, hi) && b <= h <= |kids| && base <= high
    requires b < |kids| ==> base <= kids[b].high
    requires h < |kids| ==> high <= kids[h].high
    requires b < h ==> kids[b].high < high
    requires b == h < |kids| ==> base < kids[b].base
    requires (b < |kids| && base > kids[b].base) || (h < |kids| && kids[h].base <= high < kids[h].high)
    ensures !AllCompatible(kids, base, high)
  {
    if b < |kids| && base > kids[b].base {
      PartialOverlapIsRefused(kids, b, base, high);
    } else {
      assert b < h ==> kids[b].high < kids[h].base;
      PartialOverlapIsRefused(kids, h, base, high);
    }
  }

  lemma ChildrenInside<E(!new)>(kids: seq<Tree<E>>, lo: int, hi: int, b: nat, end: nat, base: int, high: int)
    requires WellFormed(kids, lo, hi) && b <= end <= |kids| && base <= high
    requires b < end ==> base <= kids[b].base && kids[end - 1].high <= high
    requires b < end ==> !(end == b + 1 && kids[b].base == base && kids[b].high == high)
    ensures forall i | b <= i < end :: Nested(kids[i], base, high)
  {
    forall i | b <= i < end ensures Nested(kids[i], base, high) {
      assert Nested(kids[i], lo, hi) && Nested(kids[b], lo, hi) && Nested(kids[end - 1], lo, hi);
      assert b < i ==> kids[b].high < kids[i].base;
      assert i < end - 1 ==> kids[i].high < kids[end - 1].base;
    }
  }

  /** The branch that decides about the new range at this level. */
  lemma StoreHere<E(!new)>(kids: seq<Tree<E>>, lo: int, hi: int, b: nat, h: nat, n: Item<E>)
    requires WellFormed(kids, lo, hi) && Brackets(kids, b, h, n.base, n.high)
    requires lo <= n.base <= n.high <= hi && !(n.base == lo && n.high == hi)
    requires !(b == h && b < |kids| && n.base >= kids[b].base)
    ensures Decides(kids, lo, hi, n, StoreAmong(kids, b, h, n.base, n.high, n.entry))
  {
    if (b < |kids| && n.base > kids[b].base) || (h < |kids| && kids[h].base <= n.high < kids[h].high) {
      PartialOverlap(kids, lo, hi, b, h, n.base, n.high);
    } else {
      AdoptHere(kids, lo, hi, b, h, n);
    }
  }

  lemma AdoptHere<E(!new)>(kids: seq<Tree<E>>, lo: int, hi: int, b: nat, h: nat, n: Item<E>)
    requires WellFormed(kids, lo, hi) && b <= h <= |kids|
    requires lo <= n.base <= n.high <= hi && !(n.base == lo && n.high == hi)
    requires Brackets(kids, b, h, n.base, n.high)
    requires !(b < |kids| && n.base > kids[b].base)
    requires !(h < |kids| && kids[h].base <= n.high < kids[h].high)
    requires !(b == h && b < |kids| && n.base >= kids[b].base)
    ensures var end := if h < |kids| && n.high >= kids[h].base then h + 1 else h;
            var after := kids[..b] + [Tree(n.high, n.base, n.entry, kids[b..end])] + kids[end..];
            WellFormed(after, lo, hi) && Adds(after, kids, n) && AllCompatible(kids, n.base, n.high)
  {
    var end := if h < |kids| && n.high >= kids[h].base then h + 1 else h;
    ChildrenInside(kids, lo, hi, b, end, n.base, n.high);
    AdoptIsRight(kids, lo, hi, b, end, n);
  }

  lemma AdoptIsRight<E(!new)>(kids: seq<Tree<E>>, lo: int, hi: int, b: nat, end: nat, n: Item<E>)
    requires WellFormed(kids, lo, hi) && b <= end <= |kids|
    requires lo <= n.base <= n.high <= hi && !(n.base == lo && n.high == hi)
    requires forall i | 0 <= i < b :: kids[i].high < n.base
    requires forall i | end <= i < |kids| :: n.high < kids[i].base
    requires forall i | b <= i < end :: Nested(kids[i], n.base, n.high)
    ensures var after := kids[..b] + [Tree(n.high, n.base, n.entry, kids[b..end])] + kids[end..];
            WellFormed(after, lo, hi) && Adds(after, kids, n) && AllCompatible(kids, n.base, n.high)
  {
    OutsideIsCompatible(kids, lo, hi, b, end, n.base, n.high);
    AdoptIsWellFormed(kids, lo, hi, b, end, n);
    AdoptStores(kids, b, end, n);
  }

  lemma OutsideIsCompatible<E(!new)>(kids: seq<Tree<E>>, lo: int, hi: int, b: nat, end: nat, base: int, high: int)
    requires WellFormed(kids, lo, hi) && b <= end <= |kids| && base <= high
    requires forall i | 0 <= i < b :: kids[i].high < base
    requires forall i | end <= i < |kids| :: high < kids[i].base
    requires forall i | b <= i < end :: Nested(kids[i], base, high)
    ensures AllCompatible(kids, base, high)
  {
    forall x | Stores(kids, x) ensures Compatible(x, base, high) {
      var i :| 0 <= i < |kids| && (x == kids[i].Top() || Stores(kids[i].kids, x));
      assert b <= i < end ==> Nested(kids[i], base, high);
      CompatibleOutside(kids, lo, hi, i, base, high);
    }
  }

  // ---- What retrieving answers

  lemma FoundAt<E(!new)>(kids: seq<Tree<E>>, lo: int, hi: int, k: nat, address: int)
    requires WellFormed(kids, lo, hi) && k < |kids| && kids[k].base <= address <= kids[k].high
    ensures LowerBound(Keys(kids), address) == k
  {
    assert forall m | 0 <= m < k :: kids[m].high < kids[k].base;
    assert forall m | 0 <= m < k :: Keys(kids)[m] < address;
    assert Keys(kids)[k] >= address;
  }

  /** Whatever has the address is, or is below, the child that lower_bound finds. */
  lemma OnlyThere<E(!new)>(kids: seq<Tree<E>>, lo: int, hi: int, address: int)
    requires WellFormed(kids, lo, hi)
    ensures forall x | Stores(kids, x) && x.Has(address) ::
              var i := LowerBound(Keys(kids), address);
              i < |kids| && address >= kids[i].base && (x == kids[i].Top() || Stores(kids[i].kids, x))
  {
    forall x | Stores(kids, x) && x.Has(address)
      ensures var i := LowerBound(Keys(kids), address);
              i < |kids| && address >= kids[i].base && (x == kids[i].Top() || Stores(kids[i].kids, x))
    {
      var k :| 0 <= k < |kids| && (x == kids[k].Top() || Stores(kids[k].kids, x));
      StoredInChild(kids, lo, hi, k, x);
      FoundAt(kids, lo, hi, k, address);
    }
  }

  /** `x` is the smallest stored range that has the address: it lies properly inside any other that does. */
  ghost predicate IsSmallest<E(!new)>(kids: seq<Tree<E>>, address: int, x: Item<E>) {
    && Stores(kids, x) && x.Has(address)
    && forall y | Stores(kids, y) && y.Has(address) && y != x ::
         y.base <= x.base && x.high <= y.high && !(x.base == y.base && x.high == y.high)
  }

  /** RetrieveRange finds the smallest range that has the address, and fails only when there is none. */
  lemma {:induction false} RetrieveIsSmallest<E(!new)>(kids: seq<Tree<E>>, lo: int, hi: int, address: int)
    requires WellFormed(kids, lo, hi)
    ensures Retrieve(kids, address).None? ==> forall x | Stores(kids, x) :: !x.Has(address)
    ensures Retrieve(kids, address).Some? ==> IsSmallest(kids, address, Retrieve(kids, address).value)
    decreases kids
  {
    var i := LowerBound(Keys(kids), address);
    OnlyThere(kids, lo, hi, address);
    if !(i == |kids| || address < kids[i].base) {
      assert Nested(kids[i], lo, hi);
      RetrieveIsSmallest(kids[i].kids, kids[i].base, kids[i].high, address);
      var found := Retrieve(kids, address).value;
      assert Stores(kids, found);
      forall y | Stores(kids, y) && y.Has(address) && y != found
        ensures y.base <= found.base && found.high <= y.high && !(found.base == y.base && found.high == y.high)
      {
        if y == kids[i].Top() { StoredInChild(kids, lo, hi, i, found); }
      }
    }
  }

  lemma SmallestIsUnique<E(!new)>(kids: seq<Tree<E>>, kids': seq<Tree<E>>, address: int, x: Item<E>, y: Item<E>)
    requires forall z: Item<E> :: Stores(kids, z) <==> Stores(kids', z)
    requires IsSmallest(kids, address, x) && IsSmallest(kids', address, y)
    ensures x == y
  {
  }

  /** Two maps that store the same ranges answer every query alike, however they came to store them. */
  lemma SameRangesSameAnswers<E(!new)>(kids: seq<Tree<E>>, kids': seq<Tree<E>>, address: int)
    requires WellFormedRoot(kids) && WellFormedRoot(kids')
    requires forall z: Item<E> :: Stores(kids, z) <==> Stores(kids', z)
    ensures Retrieve(kids, address) == Retrieve(kids', address)
  {
    RetrieveIsSmallest(kids, -1, ADDRESS_LIMIT, address);
    RetrieveIsSmallest(kids', -1, ADDRESS_LIMIT, address);
    if Retrieve(kids, address).Some? && Retrieve(kids', address).Some? {
      SmallestIsUnique(kids, kids', address, Retrieve(kids, address).value, Retrieve(kids', address).value);
    }
  }

  // ---- Whole runs of StoreRange

  datatype Request<E> = Request(base: Address, size: Address, entry: E) {
    /** Non-empty, and ends within the address space. */
    predicate Sound() { size > 0 && base + size <= ADDRESS_LIMIT }

    function Range(): Item<E> { Item(base, base + size - 1, entry) }
  }

  /** StoreRange on the root: the map after the request, which is the map before it if it is refused. */
  function StoreRequest<E>(kids: seq<Tree<E>>, r: Request<E>): seq<Tree<E>> {
    if !r.Sound() then kids
    else
      match Store(kids, r.base, r.base + r.size - 1, r.entry)
      case None => kids
      case Some(after) => after
  }

  predicate Accepts<E>(kids: seq<Tree<E>>, r: Request<E>) {
    r.Sound() && Store(kids, r.base, r.base + r.size - 1, r.entry).Some?
  }

  /** A request handed to the child that contains it. */
  lemma RequestToChild<E>(kids: seq<Tree<E>>, r: Request<E>, b: nat)
    requires r.Sound() && b < |kids|
    requires b == LowerBound(Keys(kids), r.Range().base) == LowerBound(Keys(kids), r.Range().high)
    requires r.Range().base >= kids[b].base
    ensures kids[b].base == r.Range().base && kids[b].high == r.Range().high ==>
              !Accepts(kids, r) && StoreRequest(kids, r) == kids
    ensures !(kids[b].base == r.Range().base && kids[b].high == r.Range().high) ==>
              Accepts(kids, r) == Accepts(kids[b].kids, r)
              && StoreRequest(kids, r) == kids[b := kids[b].(kids := StoreRequest(kids[b].kids, r))]
  {
  }

  /** A request no child contains. */
  lemma RequestHere<E>(kids: seq<Tree<E>>, r: Request<E>, b: nat, h: nat)
    requires r.Sound() && b <= h <= |kids|
    requires b == LowerBound(Keys(kids), r.Range().base) && h == LowerBound(Keys(kids), r.Range().high)
    requires !(b == h && b < |kids| && r.Range().base >= kids[b].base)
    ensures match StoreAmong(kids, b, h, r.Range().base, r.Range().high, r.entry)
            case None => !Accepts(kids, r) && StoreRequest(kids, r) == kids
            case Some(after) => Accepts(kids, r) && StoreRequest(kids, r) == after
  {
    StoresHere(kids, b, h, r.Range().base, r.Range().high, r.entry);
  }

  lemma StoresHere<E>(kids: seq<Tree<E>>, b: nat, h: nat, base: int, high: int, entry: E)
    requires base <= high && b <= h <= |kids| && b == LowerBound(Keys(kids), base) && h == LowerBound(Keys(kids), high)
    requires !(b == h && b < |kids| && base >= kids[b].base)
    ensures Store(kids, base, high, entry) == StoreAmong(kids, b, h, base, high, entry)
  {
  }

  function StoreAll<E>(requests: seq<Request<E>>): seq<Tree<E>> {
    if requests == [] then []
    else StoreRequest(StoreAll(requests[..|requests| - 1]), requests[|requests| - 1])
  }

  lemma RequestIsRight<E(!new)>(kids: seq<Tree<E>>, r: Request<E>)
    requires WellFormedRoot(kids)
    ensures WellFormedRoot(StoreRequest(kids, r))
    ensures Accepts(kids, r) <==> r.Sound() && AllCompatible(kids, r.Range().base, r.Range().high)
    ensures if Accepts(kids, r) then Adds(StoreRequest(kids, r), kids, r.Range()) else StoreRequest(kids, r) == kids
  {
    if r.Sound() {
      var x := r.Range();
      StoreIsRight(kids, -1, ADDRESS_LIMIT, x.base, x.high, x.entry);
      assert Accepts(kids, r) <==> Store(kids, x.base, x.high, x.entry).Some?;
    }
  }

  /** The requests are sound, and any two of their ranges are distinct and either disjoint or nested. */
  ghost predicate Laminar<E>(requests: seq<Request<E>>) {
    && (forall i | 0 <= i < |requests| :: requests[i].Sound())
    && (forall i, j | 0 <= i < |requests| && 0 <= j < |requests| && i != j ::
          Compatible(requests[i].Range(), requests[j].Range().base, requests[j].Range().high))
  }

  /** Whatever is asked of it, the map stays well formed and stores only what it was asked to. */
  lemma {:induction false} StoreAllIsSound<E(!new)>(requests: seq<Request<E>>)
    ensures WellFormedRoot(StoreAll(requests))
    ensures forall x: Item<E> | Stores(StoreAll(requests), x) ::
              exists i :: 0 <= i < |requests| && requests[i].Sound() && x == requests[i].Range()
  {
    if requests != [] {
      var n := |requests| - 1;
      var before, r := requests[..n], requests[n];
      var kids := StoreAll(before);
      StoreAllIsSound(before);
      RequestIsRight(kids, r);
      forall x: Item<E> | Stores(StoreAll(requests), x)
        ensures exists i :: 0 <= i < |requests| && requests[i].Sound() && x == requests[i].Range()
      {
        if Stores(kids, x) {
          var i :| 0 <= i < n && before[i].Sound() && x == before[i].Range();
          assert requests[i].Sound() && x == requests[i].Range();
        } else {
          assert requests[n].Sound() && x == requests[n].Range();
        }
      }
    }
  }

  lemma NextIsAccepted<E(!new)>(requests: seq<Request<E>>, n: nat)
    requires Laminar(requests) && n < |requests|
    ensures Accepts(StoreAll(requests[..n]), requests[n])
    ensures Adds(StoreAll(requests[..n + 1]), StoreAll(requests[..n]), requests[n].Range())
  {
    var before, r := requests[..n], requests[n];
    var kids := StoreAll(before);
    StoreAllIsSound(before);
    assert AllCompatible(kids, r.Range().base, r.Range().high) by {
      forall x: Item<E> | Stores(kids, x) ensures Compatible(x, r.Range().base, r.Range().high) {
        var i :| 0 <= i < n && before[i].Sound() && x == before[i].Range();
        assert Compatible(requests[i].Range(), requests[n].Range().base, requests[n].Range().high);
      }
    }
    assert requests[n].Sound();
    RequestIsRight(kids, r);
    assert requests[..n + 1][..n] == before;
  }

  /** Ranges that are distinct, and any two of them disjoint or nested, are all accepted and all stored,
      and nothing else is. */
  lemma {:induction false} LaminarIsStored<E(!new)>(requests: seq<Request<E>>, n: nat)
    requires Laminar(requests) && n <= |requests|
    ensures forall x: Item<E> :: Stores(StoreAll(requests[..n]), x) <==> exists i :: 0 <= i < n && x == requests[i].Range()
  {
    if n > 0 {
      LaminarIsStored(requests, n - 1);
      NextIsAccepted(requests, n - 1);
    }
  }

  lemma RequestKeeps<E(!new)>(kids: seq<Tree<E>>, r: Request<E>, x: Item<E>)
    requires WellFormedRoot(kids)
    requires Stores(kids, x) || (Accepts(kids, r) && x == r.Range())
    ensures Stores(StoreRequest(kids, r), x)
  {
    RequestIsRight(kids, r);
  }

  lemma {:induction false} StoredStays<E(!new)>(requests: seq<Request<E>>, i: nat, n: nat)
    requires i < n <= |requests| && Accepts(StoreAll(requests[..i]), requests[i])
    ensures Stores(StoreAll(requests[..n]), requests[i].Range())
  {
    var kids := StoreAll(requests[..n - 1]);
    assert StoreAll(requests[..n]) == StoreRequest(kids, requests[n - 1]) by {
      assert requests[..n][..n - 1] == requests[..n - 1];
    }
    assert Stores(kids, requests[i].Range()) || i == n - 1 by {
      if i < n - 1 { StoredStays(requests, i, n - 1); }
    }
    assert WellFormedRoot(kids) by { StoreAllIsSound(requests[..n - 1]); }
    RequestKeeps(kids, requests[n - 1], requests[i].Range());
  }

  /** So a family of ranges is accepted whole exactly if it is laminar. */
  lemma AcceptedIffLaminar<E(!new)>(requests: seq<Request<E>>)
    ensures Laminar(requests) <==> forall i | 0 <= i < |requests| :: Accepts(StoreAll(requests[..i]), requests[i])
  {
    if Laminar(requests) {
      forall i | 0 <= i < |requests| ensures Accepts(StoreAll(requests[..i]), requests[i]) {
        NextIsAccepted(requests, i);
      }
    }
    if forall i | 0 <= i < |requests| :: Accepts(StoreAll(requests[..i]), requests[i]) {
      forall i, j | 0 <= i < j < |requests|
        ensures Compatible(requests[i].Range(), requests[j].Range().base, requests[j].Range().high)
      {
        StoreAllIsSound(requests[..j]);
        RequestIsRight(StoreAll(requests[..j]), requests[j]);
        StoredStays(requests, i, j);
      }
      forall i, j | 0 <= i < |requests| && 0 <= j < |requests| && i != j
        ensures Compatible(requests[i].Range(), requests[j].Range().base, requests[j].Range().high)
      {
        if j < i {
          assert Compatible(requests[j].Range(), requests[i].Range().base, requests[i].Range().high);
        } else {
          assert Compatible(requests[i].Range(), requests[j].Range().base, requests[j].Range().high);
        }
      }
      forall i | 0 <= i < |requests| ensures requests[i].Sound() {
        assert Accepts(StoreAll(requests[..i]), requests[i]);
      }
    }
  }

  lemma CountedTwice<T>(s: seq<T>, i: nat, j: nat)
    requires i < j < |s| && s[i] == s[j]
    ensures multiset(s)[s[i]] >= 2
  {
    assert s == s[..j] + s[j..] && s[..j][i] in s[..j] && s[j..][0] in s[j..];
    assert multiset(s) == multiset(s[..j]) + multiset(s[j..]);
  }

  lemma {:induction false} FoundTwice<T>(s: seq<T>, x: T) returns (i: nat, j: nat)
    requires multiset(s)[x] >= 2
    ensures i < j < |s| && s[i] == x && s[j] == x
    decreases |s|
  {
    assert s != [];
    var n := |s| - 1;
    assert s == s[..n] + [s[n]];
    if s[n] == x {
      assert x in multiset(s[..n]) && x in s[..n];
      i :| 0 <= i < n && s[..n][i] == x;
      j := n;
    } else {
      i, j := FoundTwice(s[..n], x);
    }
  }

  lemma SameMembers<T>(s: seq<T>, t: seq<T>)
    requires multiset(s) == multiset(t)
    ensures forall x :: x in s <==> x in t
  {
    forall x ensures x in s <==> x in t {
      assert (x in s <==> x in multiset(s)) && (x in t <==> x in multiset(t));
    }
  }

  /** A laminar family stays one in any order. */
  lemma ReorderedIsLaminar<E(!new)>(requests: seq<Request<E>>, reordered: seq<Request<E>>)
    requires Laminar(requests) && multiset(requests) == multiset(reordered)
    ensures Laminar(reordered)
  {
    forall i | 0 <= i < |reordered| ensures reordered[i] in requests {
      assert reordered[i] in multiset(reordered);
    }
    forall i, j | 0 <= i < |reordered| && 0 <= j < |reordered| && i != j
      ensures Compatible(reordered[i].Range(), reordered[j].Range().base, reordered[j].Range().high)
    {
      var p, q;
      if reordered[i] == reordered[j] {
        if i < j { CountedTwice(reordered, i, j); } else { CountedTwice(reordered, j, i); }
        p, q := FoundTwice(requests, reordered[i]);
      } else {
        p :| 0 <= p < |requests| && requests[p] == reordered[i];
        q :| 0 <= q < |requests| && requests[q] == reordered[j];
      }
      assert Compatible(requests[p].Range(), requests[q].Range().base, requests[q].Range().high);
    }
  }

  /** The order in which a laminar family is stored does not matter to any query. */
  lemma OrderDoesNotMatter<E(!new)>(requests: seq<Request<E>>, reordered: seq<Request<E>>, address: int)
    requires Laminar(requests) && multiset(requests) == multiset(reordered)
    ensures Retrieve(StoreAll(requests), address) == Retrieve(StoreAll(reordered), address)
  {
    var a, b := StoreAll(requests), StoreAll(reordered);
    ReorderedIsLaminar(requests, reordered);
    SameMembers(requests, reordered);
    StoreAllIsSound(requests);
    StoreAllIsSound(reordered);
    assert requests[..|requests|] == requests && reordered[..|reordered|] == reordered;
    LaminarIsStored(requests, |requests|);
    LaminarIsStored(reordered, |reordered|);
    forall x: Item<E> ensures Stores(a, x) <==> Stores(b, x) {
      if Stores(a, x) {
        var i :| 0 <= i < |requests| && x == requests[i].Range();
        assert requests[i] in reordered;
      }
      if Stores(b, x) {
        var j :| 0 <= j < |reordered| && x == reordered[j].Range();
        assert reordered[j] in requests;
      }
    }
    SameRangesSameAnswers(a, b, address);
  }
}
