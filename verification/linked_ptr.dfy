/** linked_ptr: every pointer to an object is kept on a circle, and the last one to leave deletes the object. */
module LinkedPtrs {
  import opened Sequences

  /** An allocation, told apart from every other one even if its address is used again. */
  type Object = nat

  datatype Pointer = Null | To(target: Object)

  type Values = map<LinkedPtr, Pointer>
  type Links = map<LinkedPtr, LinkedPtr>
  type Rings = map<Object, seq<LinkedPtr>>

  /** The position after `k` on a circle of `n`. */
  function After(k: nat, n: nat): nat {
    if k + 1 == n then 0 else k + 1
  }

  function Without<T>(s: seq<T>, at: nat): seq<T>
    requires at < |s|
  {
    s[..at] + s[at + 1..]
  }

  function With<T>(s: seq<T>, at: nat, x: T): seq<T>
    requires at <= |s|
  {
    s[..at] + [x] + s[at..]
  }

  /** `nexts`, the link of each member, lead once around `ring`. */
  ghost predicate Circular(ring: seq<LinkedPtr>, nexts: seq<LinkedPtr>) {
    && |nexts| == |ring| > 0 && Distinct(ring)
    && forall k {:trigger nexts[k]} | 0 <= k < |ring| :: nexts[k] == ring[After(k, |ring|)]
  }

  /** Leaving out one member, whose predecessor takes over its link. */
  lemma Unlinked(ring: seq<LinkedPtr>, nexts: seq<LinkedPtr>, at: nat, before: nat)
    requires Circular(ring, nexts) && at < |ring| && before < |ring| && before != at
    requires nexts[before] == ring[at]
    ensures Circular(Without(ring, at), Without(nexts[before := nexts[at]], at))
  {
    assert After(before, |ring|) == at;
  }

  /** Taking in one member before another. */
  lemma Relinked(ring: seq<LinkedPtr>, nexts: seq<LinkedPtr>, at: nat, before: nat, p: LinkedPtr)
    requires Circular(ring, nexts) && at < |ring| && before < |ring| && p !in ring
    requires nexts[before] == ring[at]
    ensures Circular(With(ring, at, p), With(nexts[before := p], at, ring[at]))
  {
    assert After(before, |ring|) == at;
  }

  ghost predicate AllIn(ring: seq<LinkedPtr>, links: Links) {
    forall p | p in ring :: p in links
  }

  ghost function Along(ring: seq<LinkedPtr>, links: Links): (nexts: seq<LinkedPtr>)
    requires AllIn(ring, links)
    ensures |nexts| == |ring| && forall k {:trigger nexts[k]} | 0 <= k < |ring| :: nexts[k] == links[ring[k]]
  {
    seq(|ring|, k requires 0 <= k < |ring| => links[ring[k]])
  }

  ghost predicate Around(ring: seq<LinkedPtr>, links: Links) {
    AllIn(ring, links) && Circular(ring, Along(ring, links))
  }

  /** A circle depends on the links of its members only. */
  lemma StaysAround(ring: seq<LinkedPtr>, links: Links, links': Links)
    requires Around(ring, links) && AllIn(ring, links')
    requires forall p | p in ring :: links'[p] == links[p]
    ensures Around(ring, links')
  {
    assert Along(ring, links) == Along(ring, links');
  }

  lemma MembersOfWith(ring: seq<LinkedPtr>, at: nat, p: LinkedPtr)
    requires at <= |ring|
    ensures forall q :: q in With(ring, at, p) <==> q == p || q in ring
  {
    assert With(ring, at, p)[at] == p;
    assert ring == ring[..at] + ring[at..];
  }

  lemma MembersOfWithout(ring: seq<LinkedPtr>, at: nat)
    requires Distinct(ring) && at < |ring|
    ensures forall q :: q in Without(ring, at) <==> q in ring && q != ring[at]
  {
    forall q | q in ring && q != ring[at] ensures q in Without(ring, at) {
      var k :| 0 <= k < |ring| && ring[k] == q;
      assert Without(ring, at)[if k < at then k else k - 1] == q;
    }
  }

  lemma NextAround(ring: seq<LinkedPtr>, links: Links, k: nat)
    requires Around(ring, links) && k < |ring|
    ensures links[ring[k]] == ring[After(k, |ring|)] && (After(k, |ring|) == k <==> |ring| == 1)
  {
    assert Along(ring, links)[k] == links[ring[k]];
  }

  lemma AlongUpdate(ring: seq<LinkedPtr>, links: Links, k: nat, q: LinkedPtr)
    requires AllIn(ring, links) && Distinct(ring) && k < |ring|
    ensures Along(ring, links[ring[k] := q]) == Along(ring, links)[k := q]
  {
  }

  lemma AlongWithout(ring: seq<LinkedPtr>, links: Links, at: nat)
    requires AllIn(ring, links) && at < |ring|
    ensures Along(Without(ring, at), links) == Without(Along(ring, links), at)
  {
  }

  lemma AlongWith(ring: seq<LinkedPtr>, links: Links, at: nat, p: LinkedPtr)
    requires AllIn(ring, links) && at < |ring| && p in links
    ensures Along(With(ring, at, p), links) == With(Along(ring, links), at, links[p])
  {
  }

  lemma LeavesCircle(ring: seq<LinkedPtr>, links: Links, at: nat, before: nat)
    requires Around(ring, links) && at < |ring| && before < |ring| && before != at
    requires links[ring[before]] == ring[at]
    ensures Around(Without(ring, at), links[ring[before] := links[ring[at]]] - {ring[at]})
  {
    var changed := links[ring[before] := links[ring[at]]];
    AlongUpdate(ring, links, before, links[ring[at]]);
    AlongWithout(ring, changed, at);
    Unlinked(ring, Along(ring, links), at, before);
    MembersOfWithout(ring, at);
    assert Around(Without(ring, at), changed);
    StaysAround(Without(ring, at), changed, changed - {ring[at]});
  }

  lemma JoinsCircle(ring: seq<LinkedPtr>, links: Links, at: nat, before: nat, p: LinkedPtr)
    requires Around(ring, links) && at < |ring| && before < |ring| && p !in ring
    requires links[ring[before]] == ring[at]
    ensures Around(With(ring, at, p), links[ring[before] := p][p := ring[at]])
  {
    var changed := links[p := ring[at]];
    AlongUpdate(ring, changed, before, p);
    assert Along(ring, changed) == Along(ring, links);
    AlongWith(ring, changed[ring[before] := p], at, p);
    Relinked(ring, Along(ring, links), at, before, p);
    assert changed[ring[before] := p] == links[ring[before] := p][p := ring[at]];
  }

  // ---- The pointers there are

  ghost predicate IsCircle(ring: seq<LinkedPtr>, o: Object, values: Values, links: Links) {
    (forall p | p in ring :: p in values && values[p] == To(o)) && Around(ring, links)
  }

  /** The links form one circle for each object, of exactly the pointers to it; a null pointer is alone. */
  ghost predicate Consistent(values: Values, links: Links, rings: Rings) {
    && values.Keys == links.Keys
    && (forall p | p in values && values[p].Null? :: links[p] == p)
    && OnCircles(values, rings)
    && OtherCircles(values, links, rings, Null)
  }

  ghost predicate OnCircles(values: Values, rings: Rings) {
    forall p | p in values && values[p].To? :: values[p].target in rings && p in rings[values[p].target]
  }

  /** The circles of all objects but one. */
  ghost predicate OtherCircles(values: Values, links: Links, rings: Rings, but: Pointer) {
    forall o | o in rings && To(o) != but :: IsCircle(rings[o], o, values, links)
  }

  lemma OtherCirclesStay(values: Values, links: Links, rings: Rings, but: Pointer, values': Values, links': Links)
    requires OtherCircles(values, links, rings, but)
    requires forall p | p in values && p in links && values[p].To? && values[p] != but ::
               p in values' && p in links' && values'[p] == values[p] && links'[p] == links[p]
    ensures OtherCircles(values', links', rings, but)
  {
    forall o | o in rings && To(o) != but ensures IsCircle(rings[o], o, values', links') {
      assert IsCircle(rings[o], o, values, links);
      StaysAround(rings[o], links, links');
    }
  }

  /** The circle a pointer is on. */
  ghost function RingOf(values: Values, rings: Rings, p: LinkedPtr): seq<LinkedPtr>
    requires p in values && (values[p].To? ==> values[p].target in rings)
  {
    if values[p].Null? then [p] else rings[values[p].target]
  }

  /** No pointer has the object of `v`. */
  ghost predicate Unheld<P>(values: map<P, Pointer>, v: Pointer) {
    v.To? ==> forall p | p in values :: values[p] != v
  }

  /** No other pointer has the object of `p`. */
  ghost predicate IsSole<P>(values: map<P, Pointer>, p: P)
    requires p in values
  {
    values[p].To? ==> forall q | q in values && q != p :: values[q] != values[p]
  }

  /** The object that has no pointer left once `p` is gone. */
  ghost function Orphan<P>(values: map<P, Pointer>, p: P): seq<Object>
    requires p in values
  {
    if values[p].To? && IsSole(values, p) then [values[p].target] else []
  }

  /** Taking a pointer out and putting it back changes its value only. */
  lemma PutBack(values: Values, p: LinkedPtr, v: Pointer)
    requires Unheld(values, v)
    ensures var rest: Values := values - {p};
            Unheld(rest, v) && rest[p := v] == values[p := v]
  {
  }

  lemma BackWith(values: Values, p: LinkedPtr, v: Pointer)
    ensures (values - {p})[p := v] == values[p := v]
  {
  }

  lemma RingIsAround(values: Values, links: Links, rings: Rings, p: LinkedPtr) returns (at: nat)
    requires Consistent(values, links, rings) && p in values
    ensures var ring := RingOf(values, rings, p);
            && Around(ring, links) && at < |ring| && ring[at] == p
            && (forall q | q in ring :: q in values && values[q] == values[p])
            && (|ring| == 1 <==> IsSole(values, p))
  {
    var ring := RingOf(values, rings, p);
    assert values[p].To? ==> IsCircle(ring, values[p].target, values, links);
    at :| 0 <= at < |ring| && ring[at] == p;
    NextAround(ring, links, at);
    if |ring| > 1 { assert ring[After(at, |ring|)] != p && ring[After(at, |ring|)] in ring; }
  }

  lemma FromParts(values: Values, links: Links, rings: Rings, o: Object, ring: seq<LinkedPtr>)
    requires values.Keys == links.Keys && forall p | p in values && values[p].Null? :: links[p] == p
    requires OnCircles(values, rings[o := ring]) && IsCircle(ring, o, values, links)
    requires OtherCircles(values, links, rings, To(o))
    ensures Consistent(values, links, rings[o := ring])
  {
  }

  lemma OnCirclesWithout(values: Values, rings: Rings, o: Object, at: nat)
    requires OnCircles(values, rings) && o in rings && at < |rings[o]| && Distinct(rings[o])
    ensures OnCircles(values - {rings[o][at]}, rings[o := Without(rings[o], at)])
  {
    MembersOfWithout(rings[o], at);
  }

  lemma OnCirclesWith(values: Values, rings: Rings, o: Object, at: nat, p: LinkedPtr)
    requires OnCircles(values, rings) && o in rings && at < |rings[o]|
    ensures OnCircles(values[p := To(o)], rings[o := With(rings[o], at, p)])
  {
    MembersOfWith(rings[o], at, p);
  }

  /** A pointer that leaves. */
  lemma LeavingIsConsistent(values: Values, links: Links, rings: Rings, p: LinkedPtr, o: Object, at: nat, before: nat)
    requires Consistent(values, links, rings) && p in values && values[p] == To(o) && o in rings
    requires at < |rings[o]| && rings[o][at] == p && before < |rings[o]| && before != at
    requires rings[o][before] in links && links[rings[o][before]] == p
    ensures Consistent(values - {p}, links[rings[o][before] := links[p]] - {p}, rings[o := Without(rings[o], at)])
  {
    var ring, values', links' := rings[o], values - {p}, links[rings[o][before] := links[p]] - {p};
    assert IsCircle(ring, o, values, links);
    assert IsCircle(Without(ring, at), o, values', links') by {
      LeavesCircle(ring, links, at, before);
      MembersOfWithout(ring, at);
    }
    OnCirclesWithout(values, rings, o, at);
    OtherCirclesStay(values, links, rings, To(o), values', links');
    FromParts(values', links', rings, o, Without(ring, at));
  }

  ghost function Unkept(rings: Rings, v: Pointer): Rings {
    if v.Null? then rings else rings - {v.target}
  }

  lemma LastLeavingIsConsistent(values: Values, links: Links, rings: Rings, p: LinkedPtr)
    requires Consistent(values, links, rings) && p in values && |RingOf(values, rings, p)| == 1
    ensures Consistent(values - {p}, links - {p}, Unkept(rings, values[p]))
  {
    if values[p].To? { assert IsCircle(RingOf(values, rings, p), values[p].target, values, links); }
    OtherCirclesStay(values, links, rings, values[p], values - {p}, links - {p});
  }

  lemma PartingIsConsistent(values: Values, links: Links, rings: Rings, p: LinkedPtr, at: nat, before: nat, links': Links)
    returns (rings': Rings)
    requires Consistent(values, links, rings) && p in values
    requires var ring := RingOf(values, rings, p);
             && at < |ring| && ring[at] == p && before < |ring| && (before == at <==> |ring| == 1)
             && ring[before] in links && links[ring[before]] == p && links' == links[ring[before] := links[p]]
    ensures Consistent(values - {p}, links' - {p}, rings')
  {
    if before == at {
      rings' := Unkept(rings, values[p]);
      LastLeavingIsConsistent(values, links, rings, p);
      assert links' - {p} == links - {p};
    } else {
      rings' := rings[values[p].target := Without(rings[values[p].target], at)];
      LeavingIsConsistent(values, links, rings, p, values[p].target, at, before);
    }
  }

  lemma CircleWith(ring: seq<LinkedPtr>, o: Object, values: Values, links: Links, p: LinkedPtr, at: nat, before: nat)
    requires IsCircle(ring, o, values, links) && p !in values && at < |ring| && before < |ring|
    requires links[ring[before]] == ring[at]
    ensures IsCircle(With(ring, at, p), o, values[p := To(o)], links[ring[before] := p][p := ring[at]])
    ensures ring[before] in values && values[ring[before]] == To(o)
  {
    JoinsCircle(ring, links, at, before, p);
    MembersOfWith(ring, at, p);
  }

  /** A pointer that joins the circle of another. */
  lemma JoiningIsConsistent(values: Values, links: Links, rings: Rings, p: LinkedPtr, o: Object, at: nat, before: nat)
    requires Consistent(values, links, rings) && p !in values && o in rings
    requires at < |rings[o]| && before < |rings[o]|
    requires rings[o][before] in links && links[rings[o][before]] == rings[o][at]
    ensures Consistent(values[p := To(o)], links[rings[o][before] := p][p := rings[o][at]],
                       rings[o := With(rings[o], at, p)])
  {
    var ring, values', links' := rings[o], values[p := To(o)], links[rings[o][before] := p][p := rings[o][at]];
    CircleWith(ring, o, values, links, p, at, before);
    assert values[ring[before]] == To(o);
    OnCirclesWith(values, rings, o, at, p);
    OtherCirclesStay(values, links, rings, To(o), values', links');
    FromParts(values', links', rings, o, With(ring, at, p));
  }

  lemma SharingIsConsistent(values: Values, links: Links, rings: Rings, p: LinkedPtr, ptr: LinkedPtr, at: nat, before: nat,
                            links': Links)
    returns (rings': Rings)
    requires Consistent(values, links, rings) && p !in values && ptr in values && values[ptr].To?
    requires var ring := RingOf(values, rings, ptr);
             && at < |ring| && ring[at] == ptr && before < |ring|
             && ring[before] in links && links[ring[before]] == ptr && links' == links[ring[before] := p]
    ensures Consistent(values[p := values[ptr]], links'[p := ptr], rings')
  {
    var o := values[ptr].target;
    JoiningIsConsistent(values, links, rings, p, o, at, before);
    rings' := rings[o := With(rings[o], at, p)];
  }

  lemma HolderOf(values: Values, links: Links, rings: Rings, o: Object) returns (p: LinkedPtr)
    requires Consistent(values, links, rings) && o in rings
    ensures p in values && values[p] == To(o)
  {
    assert IsCircle(rings[o], o, values, links);
    p := rings[o][0];
  }

  /** A pointer alone, to an object without pointers or to none. */
  lemma StartingIsConsistent(values: Values, links: Links, rings: Rings, p: LinkedPtr, v: Pointer)
    requires Consistent(values, links, rings) && p !in values && Unheld(values, v)
    ensures Consistent(values[p := v], links[p := p], if v.To? then rings[v.target := [p]] else rings)
  {
    if v.To? && v.target in rings {
      var q := HolderOf(values, links, rings, v.target);
      assert false;
    }
    assert Along([p], links[p := p]) == [p];
    OtherCirclesStay(values, links, rings, Null, values[p := v], links[p := p]);
  }

  // ---- The class

  ghost predicate LinksAre(ring: seq<LinkedPtr>, links: Links)
    requires AllIn(ring, links)
    reads ring`next
  {
    forall k | 0 <= k < |ring| :: ring[k].next == links[ring[k]]
  }

  class LinkedPtr {
    var value: Pointer
    var next: LinkedPtr

    /** Take over a raw pointer. */
    constructor (ptr: Pointer, memory: Memory)
      requires memory.Valid() && Unheld(memory.Values(), ptr)
      modifies memory
      ensures memory.Valid() && this !in old(memory.live)
      ensures memory.Values() == old(memory.Values())[this := ptr] && memory.deleted == old(memory.deleted)
    {
      value := ptr;
      next := this;
      new;
      Capture(ptr, memory);
    }

    /** Become one more pointer to the object of `ptr`. */
    constructor Copy(ptr: LinkedPtr, memory: Memory)
      requires memory.Valid() && ptr in memory.live
      modifies memory, memory.live`next
      ensures memory.Valid() && this !in old(memory.live)
      ensures memory.Values() == old(memory.Values())[this := old(ptr.value)] && memory.deleted == old(memory.deleted)
    {
      value := Null;
      next := this;
      new;
      CopyFrom(ptr, memory);
    }

    // The circle: linked_ptr_internal

    /** Join the circle of `ptr`, just before it. */
    method Join(ptr: LinkedPtr, ghost ring: seq<LinkedPtr>, ghost links: Links, ghost at: nat) returns (ghost before: nat)
      requires Around(ring, links) && LinksAre(ring, links) && at < |ring| && ring[at] == ptr && this !in ring
      modifies `next, ring`next
      ensures before < |ring| && links[ring[before]] == ptr
      ensures next == ptr && ring[before].next == this
      ensures forall p | p in ring && p != ring[before] :: p.next == links[p]
    {
      var p := ptr;
      before := at;
      while p.next != ptr
        invariant LinksAre(ring, links) && before < |ring| && p == ring[before]
        decreases if before < at then at - before else |ring| + at - before
      {
        NextAround(ring, links, before);
        p := p.next;
        before := After(before, |ring|);
      }
      assert links[ring[before]] == ptr;
      p.next := this;
      next := ptr;
    }

    /** Leave the circle; true iff this was its last member. The own link is left as it was. */
    method Depart(ghost ring: seq<LinkedPtr>, ghost links: Links, ghost at: nat) returns (last: bool, ghost before: nat)
      requires Around(ring, links) && LinksAre(ring, links) && at < |ring| && ring[at] == this
      modifies ring`next
      ensures last <==> |ring| == 1
      ensures before < |ring| && links[ring[before]] == this && (last <==> before == at)
      ensures ring[before].next == links[this]
      ensures forall p | p in ring && p != ring[before] :: p.next == links[p]
    {
      NextAround(ring, links, at);
      if next == this { return true, at; }
      var p := next;
      before := After(at, |ring|);
      while p.next != this
        invariant LinksAre(ring, links) && before < |ring| && p == ring[before] && before != at
        decreases if before < at then at - before else |ring| + at - before
      {
        NextAround(ring, links, before);
        p := p.next;
        before := After(before, |ring|);
      }
      p.next := next;
      return false, before;
    }

    // The pointer: linked_ptr

    /** Leave the circle, and delete the object if that was the last pointer to it. */
    method Leave(memory: Memory)
      requires memory.Valid() && this in memory.live
      modifies memory, memory.live`next
      ensures memory.Valid()
      ensures memory.Values() == old(memory.Values()) - {this}
      ensures memory.deleted == old(memory.deleted) + Orphan(old(memory.Values()), this)
    {
      var last := Withdraw(memory);
      if last && value.To? { memory.deleted := memory.deleted + [value.target]; }
    }

    method Withdraw(memory: Memory) returns (last: bool)
      requires memory.Valid() && this in memory.live
      modifies memory`live, memory`rings, memory.live`next
      ensures memory.Valid() && memory.Values() == old(memory.Values()) - {this}
      ensures last <==> IsSole(old(memory.Values()), this)
    {
      ghost var rings;
      last, rings := Detach(memory);
      memory.Strike(this, rings);
    }

    /** Depart, and the circles of the pointers that remain. */
    method Detach(memory: Memory) returns (last: bool, ghost rings: Rings)
      requires memory.Valid() && this in memory.live
      modifies memory.live`next
      ensures last <==> IsSole(memory.Values(), this)
      ensures Consistent(memory.Values() - {this}, memory.Links() - {this}, rings)
    {
      ghost var values, links := memory.Values(), memory.Links();
      ghost var at, before;
      last, at, before := Unlink(memory);
      assert memory.Values() == values;
      rings := PartingIsConsistent(values, links, memory.rings, this, at, before, memory.Links());
    }

    /** Depart, and what it does to the links of all pointers. */
    method Unlink(memory: Memory) returns (last: bool, ghost at: nat, ghost before: nat)
      requires memory.Valid() && this in memory.live
      modifies memory.live`next
      ensures memory.Values() == old(memory.Values())
      ensures last <==> IsSole(memory.Values(), this)
      ensures var ring := RingOf(memory.Values(), memory.rings, this);
              && at < |ring| && ring[at] == this && before < |ring| && (last <==> |ring| == 1) && (last <==> before == at)
              && ring[before] in memory.live && old(memory.Links())[ring[before]] == this
              && memory.Links() == old(memory.Links())[ring[before] := old(memory.Links())[this]]
    {
      ghost var links, ring := memory.Links(), RingOf(memory.Values(), memory.rings, this);
      at := RingIsAround(memory.Values(), links, memory.rings, this);
      last, before := Depart(ring, links, at);
    }

    method Capture(ptr: Pointer, memory: Memory)
      requires memory.Valid() && this !in memory.live && Unheld(memory.Values(), ptr)
      modifies this, memory
      ensures memory.Valid()
      ensures memory.Values() == old(memory.Values())[this := ptr] && memory.deleted == old(memory.deleted)
    {
      ghost var values, links, rings := memory.Values(), memory.Links(), memory.rings;
      value := ptr;
      next := this;
      StartingIsConsistent(values, links, rings, this, ptr);
      memory.Enlist(this, if ptr.To? then rings[ptr.target := [this]] else rings);
    }

    method CopyFrom(ptr: LinkedPtr, memory: Memory)
      requires memory.Valid() && this !in memory.live && ptr in memory.live
      modifies this, memory, memory.live`next
      ensures memory.Valid()
      ensures memory.Values() == old(memory.Values())[this := old(ptr.value)] && memory.deleted == old(memory.deleted)
    {
      if ptr.value.To? {
        Share(ptr, memory);
      } else {
        Capture(Null, memory);
      }
    }

    method Share(ptr: LinkedPtr, memory: Memory)
      requires memory.Valid() && this !in memory.live && ptr in memory.live && ptr.value.To?
      modifies this, memory, memory.live`next
      ensures memory.Valid()
      ensures memory.Values() == old(memory.Values())[this := old(ptr.value)] && memory.deleted == old(memory.deleted)
    {
      hide Consistent;
      value := ptr.value;
      ghost var values := memory.Values();
      ghost var rings := Attach(ptr, memory);
      assert memory.Values() == values;
      memory.Enlist(this, rings);
    }

    /** Join, and the circles with this pointer among them. */
    method Attach(ptr: LinkedPtr, memory: Memory) returns (ghost rings: Rings)
      requires memory.Valid() && this !in memory.live && ptr in memory.live && ptr.value.To?
      modifies `next, memory.live`next
      ensures memory.Values() == old(memory.Values()) && next == ptr
      ensures Consistent(memory.Values()[this := ptr.value], memory.Links()[this := next], rings)
    {
      ghost var values, links := memory.Values(), memory.Links();
      ghost var at, before := Link(ptr, memory);
      rings := SharingIsConsistent(values, links, memory.rings, this, ptr, at, before, memory.Links());
    }

    /** Join, and what it does to the links of all pointers. */
    method Link(ptr: LinkedPtr, memory: Memory) returns (ghost at: nat, ghost before: nat)
      requires memory.Valid() && this !in memory.live && ptr in memory.live
      modifies `next, memory.live`next
      ensures memory.Values() == old(memory.Values()) && next == ptr
      ensures var ring := RingOf(memory.Values(), memory.rings, ptr);
              && at < |ring| && ring[at] == ptr && before < |ring|
              && ring[before] in memory.live && old(memory.Links())[ring[before]] == ptr
              && memory.Links() == old(memory.Links())[ring[before] := this]
    {
      ghost var ring := RingOf(memory.Values(), memory.rings, ptr);
      at := RingIsAround(memory.Values(), memory.Links(), memory.rings, ptr);
      before := LinkInto(ptr, memory, ring, memory.Links(), at);
    }

    method LinkInto(ptr: LinkedPtr, memory: Memory, ghost ring: seq<LinkedPtr>, ghost links: Links, ghost at: nat)
      returns (ghost before: nat)
      requires memory.Links() == links && Around(ring, links) && at < |ring| && ring[at] == ptr && this !in memory.live
      modifies `next, ring`next
      ensures memory.Values() == old(memory.Values()) && next == ptr && before < |ring| && links[ring[before]] == ptr
      ensures memory.Links() == links[ring[before] := this]
    {
      assert forall p | p in ring :: p in links;
      before := Join(ptr, ring, links, at);
    }

    method Assign(ptr: LinkedPtr, memory: Memory)
      requires memory.Valid() && this in memory.live && ptr in memory.live
      modifies this, memory, memory.live`next
      ensures memory.Valid()
      ensures memory.Values() == old(memory.Values())[this := old(ptr.value)]
      ensures memory.deleted == old(memory.deleted) + (if ptr == this then [] else Orphan(old(memory.Values()), this))
    {
      if ptr != this {
        BackWith(memory.Values(), this, ptr.value);
        Leave(memory);
        CopyFrom(ptr, memory);
      }
    }

    method Reset(ptr: Pointer, memory: Memory)
      requires memory.Valid() && this in memory.live && Unheld(memory.Values(), ptr)
      modifies this, memory, memory.live`next
      ensures memory.Valid()
      ensures memory.Values() == old(memory.Values())[this := ptr]
      ensures memory.deleted == old(memory.deleted) + Orphan(old(memory.Values()), this)
    {
      ghost var values := memory.Values();
      Leave(memory);
      PutBack(values, this, ptr);
      Capture(ptr, memory);
    }

    /** Give the object up without deleting it. */
    method Release(memory: Memory) returns (v: Pointer)
      requires memory.Valid() && this in memory.live && IsSole(memory.Values(), this)
      modifies this, memory, memory.live`next
      ensures memory.Valid()
      ensures memory.Values() == old(memory.Values())[this := Null] && memory.deleted == old(memory.deleted)
      ensures v == old(value)
    {
      hide Consistent;
      var last := Withdraw(memory);
      v := value;
      Capture(Null, memory);
    }
  }

  class Memory {
    /** What delete was applied to, in order. */
    var deleted: seq<Object>
    ghost var live: set<LinkedPtr>
    /** The circle of each object that has pointers. */
    ghost var rings: Rings

    constructor ()
      ensures Valid() && Values() == map[] && deleted == []
    {
      deleted, live, rings := [], {}, map[];
    }

    ghost function Values(): (values: Values)
      reads this`live, live`value
      ensures values.Keys == live
    {
      map p | p in live :: p.value
    }

    ghost function Links(): (links: Links)
      reads this`live, live`next
      ensures links.Keys == live
    {
      map p | p in live :: p.next
    }

    ghost predicate Valid()
      reads this`live, this`rings, live
    {
      Consistent(Values(), Links(), rings)
    }

    ghost method Enlist(p: LinkedPtr, rings': Rings)
      requires p !in live && Consistent(Values()[p := p.value], Links()[p := p.next], rings')
      modifies `live, `rings
      ensures Valid() && Values() == old(Values())[p := p.value]
    {
      ghost var values, links := Values()[p := p.value], Links()[p := p.next];
      live := live + {p};
      rings := rings';
      assert Values() == values && Links() == links;
    }

    ghost method Strike(p: LinkedPtr, rings': Rings)
      requires p in live && Consistent(Values() - {p}, Links() - {p}, rings')
      modifies `live, `rings
      ensures Valid() && Values() == old(Values()) - {p}
    {
      ghost var values, links := Values() - {p}, Links() - {p};
      live := live - {p};
      rings := rings';
      assert Values() == values && Links() == links;
    }
  }
}
