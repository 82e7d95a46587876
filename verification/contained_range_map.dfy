/** ContainedRangeMap as it lives on the heap: nodes that own the nodes of the ranges nested in theirs, and
    hand them over when a new range comes between. */
module ContainedRangeMaps {
  import opened Addresses
  import opened Options
  import opened RangeTree
  import opened Sequences

  /** An entry of the std::map: a child under its high address. */
  datatype Child<E> = Child(high: Address, node: ContainedRangeMap<E>)

  /** The nodes in `children` own disjoint parts of `owned`, and `kids` is what they stand for. */
  ghost predicate Family<E>(children: seq<Child<E>>, kids: seq<Tree<E>>, owned: set<object>)
    reads owned
  {
    && |kids| == |children|
    && (forall i | 0 <= i < |children| ::
          && children[i].node in owned && children[i].node in children[i].node.Repr && children[i].node.Repr <= owned
          && kids[i] == Tree(children[i].high, children[i].node.base, children[i].node.entry, children[i].node.kids))
    && (forall i, j | 0 <= i < j < |children| :: children[i].node.Repr !! children[j].node.Repr)
  }

  ghost function Reprs<E>(children: seq<Child<E>>): (reprs: seq<set<object>>)
    reads set i | 0 <= i < |children| :: children[i].node
    ensures |reprs| == |children| && forall i | 0 <= i < |reprs| :: reprs[i] == children[i].node.Repr
  {
    if children == [] then [] else Reprs(children[..|children| - 1]) + [children[|children| - 1].node.Repr]
  }

  /** Everything the children own. */
  ghost function Union<E>(children: seq<Child<E>>): (r: set<object>)
    reads set i | 0 <= i < |children| :: children[i].node
  {
    if children == [] then {} else Union(children[..|children| - 1]) + children[|children| - 1].node.Repr
  }

  lemma {:induction false} InUnion<E>(children: seq<Child<E>>, o: object)
    ensures o in Union(children) <==> exists i :: 0 <= i < |children| && o in children[i].node.Repr
  {
    if children != [] {
      var n := |children| - 1;
      InUnion(children[..n], o);
      if o in Union(children[..n]) {
        var i :| 0 <= i < n && o in children[..n][i].node.Repr;
        assert o in children[i].node.Repr;
      }
      if i :| 0 <= i < |children| && o in children[i].node.Repr {
        assert i < n ==> o in children[..n][i].node.Repr;
      }
    }
  }

  /** Some of the children are a family by themselves. */
  lemma Subfamily<E>(children: seq<Child<E>>, kids: seq<Tree<E>>, owned: set<object>, b: nat, end: nat)
    requires Family(children, kids, owned) && b <= end <= |children|
    ensures Union(children[b..end]) <= owned
    ensures Family(children[b..end], kids[b..end], Union(children[b..end]))
  {
    var some := children[b..end];
    forall o | o in Union(some) ensures o in owned {
      InUnion(some, o);
      var i :| 0 <= i < |some| && o in some[i].node.Repr;
      assert some[i] == children[b + i];
    }
    forall i | 0 <= i < |some|
      ensures some[i] == children[b + i] && some[i].node in some[i].node.Repr && some[i].node.Repr <= Union(some)
    {
      assert some[i] == children[b + i];
      forall o | o in some[i].node.Repr ensures o in Union(some) { InUnion(some, o); }
    }
  }

  lemma RestIsApart<E>(children: seq<Child<E>>, kids: seq<Tree<E>>, owned: set<object>, b: nat, end: nat, i: nat)
    requires Family(children, kids, owned) && b <= end <= |children|
    requires i < |children| && !(b <= i < end)
    ensures children[i].node.Repr !! Union(children[b..end])
  {
    var some := children[b..end];
    forall o | o in Union(some) ensures o !in children[i].node.Repr {
      InUnion(some, o);
      var k :| 0 <= k < |some| && o in some[k].node.Repr;
      assert some[k] == children[b + k];
    }
  }

  /** Putting a node that has taken over the children [b, end) in their place leaves a family. */
  lemma Splice<E>(children: seq<Child<E>>, kids: seq<Tree<E>>, owned: set<object>, b: nat, end: nat,
                  high: Address, node: ContainedRangeMap<E>)
    requires Family(children, kids, owned) && b <= end <= |children|
    requires node.Repr == Union(children[b..end]) + {node} && node !in owned
    ensures Family(children[..b] + [Child(high, node)] + children[end..],
                   kids[..b] + [Tree(high, node.base, node.entry, node.kids)] + kids[end..],
                   owned + {node})
  {
    var after := children[..b] + [Child(high, node)] + children[end..];
    var tree := Tree(high, node.base, node.entry, node.kids);
    var after' := kids[..b] + [tree] + kids[end..];
    forall i | 0 <= i < |after|
      ensures after[i].node in owned + {node} && after[i].node in after[i].node.Repr && after[i].node.Repr <= owned + {node}
      ensures after'[i] == Tree(after[i].high, after[i].node.base, after[i].node.entry, after[i].node.kids)
      ensures i != b ==> after[i].node.Repr !! node.Repr
    {
      Subfamily(children, kids, owned, b, end);
      if i != b {
        var k := if i < b then i else end + (i - b - 1);
        assert after[i] == children[k] && after'[i] == kids[k];
        RestIsApart(children, kids, owned, b, end, k);
      }
    }
    forall i, j | 0 <= i < j < |after| ensures after[i].node.Repr !! after[j].node.Repr {
      if i != b && j != b {
        assert after[i] == children[if i < b then i else end + (i - b - 1)];
        assert after[j] == children[if j < b then j else end + (j - b - 1)];
      }
    }
  }

  class ContainedRangeMap<E> {
    const base: Address
    const entry: E
    /** The std::map, in the order of its keys. A null childMap and an empty one behave alike. */
    var childMap: seq<Child<E>>

    /** The ranges below this node, as a value, and the nodes that make them up, this one included. */
    ghost var kids: seq<Tree<E>>
    ghost var Repr: set<object>

    ghost predicate Valid()
      reads this, Repr
      ensures Valid() ==> this in Repr
      decreases Repr
    {
      && this in Repr && Family(childMap, kids, Repr - {this})
      && forall i | 0 <= i < |childMap| :: childMap[i].node.Valid()
    }

    constructor (base: Address, entry: E)
      ensures Valid() && fresh(Repr) && kids == []
      ensures this.base == base && this.entry == entry
    {
      this.base := base;
      this.entry := entry;
      childMap := [];
      kids := [];
      Repr := {this};
    }

    /** The node for a new range, with the nodes of the ranges it takes in. */
    constructor Adopting(base: Address, entry: E, childMap: seq<Child<E>>, ghost kids: seq<Tree<E>>, ghost owned: set<object>)
      requires Family(childMap, kids, owned) && forall i | 0 <= i < |childMap| :: childMap[i].node.Valid()
      ensures Valid() && Repr == owned + {this} && fresh(this)
      ensures this.kids == kids && this.base == base && this.entry == entry
    {
      this.base := base;
      this.entry := entry;
      this.childMap := childMap;
      this.kids := kids;
      Repr := owned + {this};
      new;
      assert Repr - {this} == owned;
    }

    method StoreRange(base: Address, size: Address, entry: E) returns (stored: bool)
      requires Valid()
      modifies Repr
      ensures Valid() && fresh(Repr - old(Repr))
      ensures stored == Accepts(old(kids), Request(base, size, entry))
      ensures kids == StoreRequest(old(kids), Request(base, size, entry))
      decreases Repr, 2
    {
      var high := Sub(Add(base, size), 1);
      if size <= 0 || high < base {
        return false;
      }
      stored := StoreNonEmpty(base, size, high, entry);
    }

    /** StoreRange, once the range has been found neither empty nor past the end of the address space. */
    method StoreNonEmpty(base: Address, size: Address, high: Address, entry: E) returns (stored: bool)
      requires Valid() && Request(base, size, entry).Sound() && high == base + size - 1
      modifies Repr
      ensures Valid() && fresh(Repr - old(Repr))
      ensures stored == Accepts(old(kids), Request(base, size, entry))
      ensures kids == StoreRequest(old(kids), Request(base, size, entry))
      decreases Repr, 1
    {
      hide Family;
      ghost var was := kids;
      var b, h, inside, same := Locate(base, high);
      if inside && same {
        stored := false;
      } else if inside {
        stored := StoreBelow(b, base, size, entry);
      } else {
        stored := StoreHere(b, h, base, high, entry);
      }
      if inside {
        RequestToChild(was, Request(base, size, entry), b);
      } else {
        RequestHere(was, Request(base, size, entry), b, h);
      }
    }

    /** What lower_bound finds for both ends of a range, whether a child contains the range, and whether
        that child is the very same range. */
    method Locate(base: Address, high: Address) returns (b: nat, h: nat, inside: bool, same: bool)
      requires Valid() && base <= high
      ensures b == LowerBound(Keys(kids), base) && h == LowerBound(Keys(kids), high)
      ensures b <= h <= |childMap| == |kids|
      ensures inside == (b == h && b < |kids| && base >= kids[b].base)
      ensures inside ==> same == (kids[b].base == base && kids[b].high == high)
    {
      var keys := seq(|childMap|, i requires 0 <= i < |childMap| reads this => childMap[i].high);
      assert keys == Keys(kids);
      LowerBoundMonotone(keys, base, high);
      b, h := LowerBound(keys, base), LowerBound(keys, high);
      inside := b == h && b != |childMap| && base >= childMap[b].node.base;
      same := inside && childMap[b].node.base == base && childMap[b].high == high;
    }

    /** The rest of StoreRange, when no child contains the new range. */
    method StoreHere(b: nat, h: nat, base: Address, high: Address, entry: E) returns (stored: bool)
      requires Valid() && b <= h <= |childMap| == |kids|
      modifies this
      ensures Valid() && fresh(Repr - old(Repr))
      ensures match StoreAmong(old(kids), b, h, base, high, entry)
              case None => !stored && kids == old(kids)
              case Some(after) => stored && kids == after
    {
      var containsHigh := h != |childMap| && high >= childMap[h].node.base;
      if (b != |childMap| && base > childMap[b].node.base) || (containsHigh && high < childMap[h].high) {
        return false;
      }
      Adopt(b, if containsHigh then h + 1 else h, base, high, entry);
      return true;
    }

    /** Hand the new range to the child at position `b`. */
    method StoreBelow(b: nat, base: Address, size: Address, entry: E) returns (stored: bool)
      requires Valid() && b < |childMap| == |kids|
      modifies Repr
      ensures Valid() && fresh(Repr - old(Repr))
      ensures stored == Accepts(old(kids)[b].kids, Request(base, size, entry))
      ensures kids == old(kids)[b := old(kids)[b].(kids := StoreRequest(old(kids)[b].kids, Request(base, size, entry)))]
      decreases Repr, 0
    {
      var child := childMap[b].node;
      stored := child.StoreRange(base, size, entry);
      kids := kids[b := kids[b].(kids := child.kids)];
      Repr := Repr + child.Repr;
    }

    /** Make the children [b, end) the children of a new node, and that node a child of this one. */
    method Adopt(b: nat, end: nat, base: Address, high: Address, entry: E)
      requires Valid() && b <= end <= |childMap| == |kids|
      modifies this
      ensures Valid() && fresh(Repr - old(Repr))
      ensures kids == old(kids)[..b] + [Tree(high, base, entry, old(kids)[b..end])] + old(kids)[end..]
    {
      ghost var owned := Repr - {this};
      Subfamily(childMap, kids, owned, b, end);
      var node := new ContainedRangeMap.Adopting(base, entry, childMap[b..end], kids[b..end], Union(childMap[b..end]));
      PutInPlace(b, end, high, node);
    }

    /** Put a node in the place of the children that it has taken over. */
    method PutInPlace(b: nat, end: nat, high: Address, node: ContainedRangeMap<E>)
      requires Valid() && b <= end <= |childMap| == |kids|
      requires node.Valid() && node.Repr == Union(childMap[b..end]) + {node} && node !in Repr
      modifies this
      ensures Valid() && Repr == old(Repr) + {node}
      ensures kids == old(kids)[..b] + [Tree(high, node.base, node.entry, node.kids)] + old(kids)[end..]
    {
      ghost var owned := Repr - {this};
      Subfamily(childMap, kids, owned, b, end);
      Splice(childMap, kids, owned, b, end, high, node);
      childMap := childMap[..b] + [Child(high, node)] + childMap[end..];
      kids := kids[..b] + [Tree(high, node.base, node.entry, node.kids)] + kids[end..];
      Repr := Repr + {node};
      assert Repr - {this} == owned + {node};
    }

    method RetrieveRange(address: Address) returns (found: Option<E>)
      requires Valid()
      ensures found == match Retrieve(kids, address) case None => None case Some(x) => Some(x.entry)
      decreases Repr
    {
      var keys := seq(|childMap|, i requires 0 <= i < |childMap| reads this => childMap[i].high);
      assert keys == Keys(kids);
      var i := LowerBound(keys, address);
      if i == |childMap| || address < childMap[i].node.base {
        return None;
      }
      found := childMap[i].node.RetrieveRange(address);
      if found.None? {
        found := Some(childMap[i].node.entry);
      }
    }

    /** Delete all descendants, whose destructors delete theirs. `deleted` are the nodes in the order of their deletion:
        those of all the ranges below this node, each once. */
    method Clear() returns (deleted: seq<ContainedRangeMap<E>>)
      requires Valid()
      modifies Repr
      ensures Valid() && Repr == {this} && kids == []
      ensures AreNodesOf(deleted, PostOrder(old(kids))) && Distinct(deleted)
      ensures forall k | 0 <= k < |deleted| :: deleted[k] in old(Repr) && deleted[k] != this
      decreases Repr, 0
    {
      deleted := [];
      ghost var was, reprs, gone: set<object> := kids, Reprs(childMap), {};
      for i := 0 to |childMap|
        invariant childMap == old(childMap) && kids == was && Repr == old(Repr)
        invariant Remain(i, was, reprs)
        invariant AreNodesOf(deleted, PostOrder(was[..i])) && Distinct(deleted)
        invariant gone <= Repr - {this} && forall j | i <= j < |childMap| :: gone !! reprs[j]
        invariant forall k | 0 <= k < |deleted| :: deleted[k] in gone
      {
        var nodes := ClearChild(i, was, reprs);
        assert was[..i + 1][..i] == was[..i];
        DeletedToo(deleted, PostOrder(was[..i]), nodes, PostOrder(was[i].kids) + [was[i].Top()]);
        deleted := deleted + nodes;
        gone := gone + reprs[i];
      }
      assert was[..|childMap|] == was;
      childMap := [];
      kids := [];
      Repr := {this};
    }

    /** The children from position `i` on are still as they were. */
    ghost predicate Remain(i: nat, was: seq<Tree<E>>, reprs: seq<set<object>>)
      reads this, Repr
    {
      && |was| == |reprs| == |childMap|
      && forall j | i <= j < |childMap| ::
           var node := childMap[j].node;
           && node in Repr && node.Repr == reprs[j] <= Repr && node.Valid()
           && node.kids == was[j].kids && node.base == was[j].base && node.entry == was[j].entry
    }

    /** Delete one child. */
    method ClearChild(i: nat, ghost was: seq<Tree<E>>, ghost reprs: seq<set<object>>) returns (nodes: seq<ContainedRangeMap<E>>)
      requires i < |childMap| && Remain(i, was, reprs) && this !in reprs[i]
      requires forall j | i < j < |reprs| :: reprs[i] !! reprs[j]
      modifies childMap[i].node.Repr
      ensures Remain(i + 1, was, reprs)
      ensures AreNodesOf(nodes, PostOrder(was[i].kids) + [was[i].Top()]) && Distinct(nodes)
      ensures forall k | 0 <= k < |nodes| :: nodes[k] in reprs[i]
      decreases childMap[i].node.Repr, 1
    {
      var node := childMap[i].node;
      nodes := node.Clear();
      nodes := nodes + [node];
    }
  }

  /** The ranges of a tree, each behind those nested in it. */
  function PostOrder<E>(kids: seq<Tree<E>>): seq<Item<E>> {
    if kids == [] then []
    else PostOrder(kids[..|kids| - 1]) + (PostOrder(kids[|kids| - 1].kids) + [kids[|kids| - 1].Top()])
  }

  ghost predicate AreNodesOf<E>(nodes: seq<ContainedRangeMap<E>>, items: seq<Item<E>>) {
    |nodes| == |items| && forall k | 0 <= k < |nodes| :: nodes[k].base == items[k].base && nodes[k].entry == items[k].entry
  }

  lemma DeletedToo<E>(nodes: seq<ContainedRangeMap<E>>, items: seq<Item<E>>,
                      more: seq<ContainedRangeMap<E>>, moreItems: seq<Item<E>>)
    requires AreNodesOf(nodes, items) && AreNodesOf(more, moreItems) && Distinct(nodes) && Distinct(more)
    requires forall k | 0 <= k < |more| :: more[k] !in nodes
    ensures AreNodesOf(nodes + more, items + moreItems) && Distinct(nodes + more)
  {
  }

  /** That is every range stored, and nothing else. */
  lemma {:induction false} PostOrderIsStored<E(!new)>(kids: seq<Tree<E>>, x: Item<E>)
    ensures x in PostOrder(kids) <==> Stores(kids, x)
  {
    if kids != [] {
      var n := |kids| - 1;
      PostOrderIsStored(kids[..n], x);
      PostOrderIsStored(kids[n].kids, x);
      StoresLast(kids, x);
      InBoth(PostOrder(kids[..n]), PostOrder(kids[n].kids), kids[n].Top(), x);
    }
  }

  lemma InBoth<E(!new)>(a: seq<Item<E>>, b: seq<Item<E>>, top: Item<E>, x: Item<E>)
    ensures x in a + (b + [top]) <==> x in a || x in b || x == top
  {
  }

  lemma StoresLast<E(!new)>(kids: seq<Tree<E>>, x: Item<E>)
    requires kids != []
    ensures var n := |kids| - 1;
            Stores(kids, x) <==> Stores(kids[..n], x) || Stores(kids[n].kids, x) || x == kids[n].Top()
  {
    assert forall i | 0 <= i < |kids| - 1 :: kids[..|kids| - 1][i] == kids[i];
  }

  /** A map built by any sequence of requests holds what RangeTree says it holds. */
  method StoreEach<E>(root: ContainedRangeMap<E>, requests: seq<Request<E>>)
    requires root.Valid() && root.kids == []
    modifies root.Repr
    ensures root.Valid() && root.kids == StoreAll(requests)
  {
    for n := 0 to |requests|
      invariant root.Valid() && fresh(root.Repr - old(root.Repr))
      invariant root.kids == StoreAll(requests[..n])
    {
      assert requests[..n + 1][..n] == requests[..n];
      var stored := root.StoreRange(requests[n].base, requests[n].size, requests[n].entry);
    }
    assert requests[..|requests|] == requests;
  }
}
