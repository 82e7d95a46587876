/** Stands for std::sort and std::stable_sort: the order in which the elements of a vector come out. */
module Sorting {

  /** `order` lists every index below `n` exactly once. */
  ghost predicate IsPermutation(order: seq<int>, n: nat) {
    && |order| == n
    && (forall p | 0 <= p < n :: 0 <= order[p] < n)
    && (forall p, q | 0 <= p < q < n :: order[p] != order[q])
    && (forall i | 0 <= i < n :: i in order)
  }

  /** The vector `s` rearranged so that `s[order[p]]` comes at position `p`. */
  function Permute<T>(s: seq<T>, order: seq<int>): (r: seq<T>)
    requires forall p | 0 <= p < |order| :: 0 <= order[p] < |s|
    ensures |r| == |order| && forall p | 0 <= p < |r| :: r[p] == s[order[p]]
  {
    seq(|order|, p requires 0 <= p < |order| => s[order[p]])
  }

  /** Ascending by key, and elements with equal keys keep the order they had. */
  ghost predicate StablySorted(keys: seq<int>, order: seq<int>)
    requires forall p | 0 <= p < |order| :: 0 <= order[p] < |keys|
  {
    forall p, q | 0 <= p < q < |order| ::
      keys[order[p]] < keys[order[q]] || (keys[order[p]] == keys[order[q]] && order[p] < order[q])
  }

  /** `order` with `k` put in at position `at`. */
  function Insert(order: seq<int>, at: nat, k: int): (r: seq<int>)
    requires at <= |order|
    ensures |r| == |order| + 1
    ensures forall p | 0 <= p < |r| :: r[p] == if p < at then order[p] else if p == at then k else order[p - 1]
  {
    order[..at] + [k] + order[at..]
  }

  lemma InsertIsPermutation(order: seq<int>, at: nat, k: nat)
    requires IsPermutation(order, k) && at <= k
    ensures IsPermutation(Insert(order, at, k), k + 1)
  {
    var r := Insert(order, at, k);
    forall i | 0 <= i <= k ensures i in r {
      if i < k {
        assert i in order;
        var p :| 0 <= p < k && order[p] == i;
        assert r[if p < at then p else p + 1] == i;
      } else {
        assert r[at] == k;
      }
    }
  }

  lemma InsertIsStablySorted(keys: seq<int>, order: seq<int>, at: nat, k: nat)
    requires k < |keys| && at <= |order|
    requires forall p | 0 <= p < |order| :: 0 <= order[p] < k
    requires StablySorted(keys, order)
    requires forall p | at <= p < |order| :: keys[order[p]] > keys[k]
    requires at == 0 || keys[order[at - 1]] <= keys[k]
    ensures StablySorted(keys, Insert(order, at, k))
  {
    var r := Insert(order, at, k);
    forall p, q | 0 <= p < q < |r|
      ensures keys[r[p]] < keys[r[q]] || (keys[r[p]] == keys[r[q]] && r[p] < r[q])
    {
      if q == at {
        assert p == at - 1 || keys[order[p]] <= keys[order[at - 1]];
      }
    }
  }

  method StableOrder(keys: seq<int>) returns (order: seq<int>)
    ensures IsPermutation(order, |keys|)
    ensures StablySorted(keys, order)
  {
    order := [];
    for k := 0 to |keys|
      invariant IsPermutation(order, k)
      invariant StablySorted(keys, order)
    {
      var at := k;
      while at > 0 && keys[order[at - 1]] > keys[k]
        invariant 0 <= at <= k
        invariant forall p | at <= p < k :: keys[order[p]] > keys[k]
      {
        at := at - 1;
      }
      InsertIsPermutation(order, at, k);
      InsertIsStablySorted(keys, order, at, k);
      order := Insert(order, at, k);
    }
  }

  lemma WithoutLastIndex(order: seq<int>, p: nat)
    requires p < |order| && IsPermutation(order, |order|) && order[p] == |order| - 1
    ensures IsPermutation(order[..p] + order[p + 1..], |order| - 1)
  {
    var rest := order[..p] + order[p + 1..];
    forall q | 0 <= q < |rest| ensures 0 <= rest[q] < |rest| {
      assert rest[q] == order[if q < p then q else q + 1] != order[p];
    }
    forall i | 0 <= i < |rest| ensures i in rest {
      assert i in order;
      var q :| 0 <= q < |order| && order[q] == i;
      assert rest[if q < p then q else q - 1] == i;
    }
  }

  lemma PermuteWithoutLast<T>(s: seq<T>, order: seq<int>) returns (rest: seq<int>, p: nat)
    requires s != [] && IsPermutation(order, |s|)
    ensures IsPermutation(rest, |s| - 1) && p <= |rest|
    ensures var r := Permute(s[..|s| - 1], rest);
            Permute(s, order) == r[..p] + [s[|s| - 1]] + r[p..]
  {
    assert |s| - 1 in order;
    p :| 0 <= p < |order| && order[p] == |s| - 1;
    WithoutLastIndex(order, p);
    rest := order[..p] + order[p + 1..];
  }

  lemma MultisetWith<T>(r: seq<T>, p: nat, x: T)
    requires p <= |r|
    ensures multiset(r[..p] + [x] + r[p..]) == multiset(r) + multiset{x}
  {
    assert r == r[..p] + r[p..];
  }

  /** Rearranging a vector keeps each element as often as it is there. */
  lemma {:induction false} PermuteKeepsMultiset<T>(s: seq<T>, order: seq<int>)
    requires IsPermutation(order, |s|)
    ensures multiset(Permute(s, order)) == multiset(s)
    decreases |s|
  {
    if s != [] {
      var n := |s| - 1;
      var rest, p := PermuteWithoutLast(s, order);
      var r := Permute(s[..n], rest);
      PermuteKeepsMultiset(s[..n], rest);
      MultisetWith(r, p, s[n]);
      assert s == s[..n] + [s[n]];
    }
  }

  /** Rearranging a vector neither loses nor repeats an element. */
  lemma {:induction false} PermuteKeepsElements<T>(s: seq<T>, order: seq<int>)
    requires IsPermutation(order, |s|)
    ensures forall x :: x in Permute(s, order) <==> x in s
    ensures (forall p, q | 0 <= p < q < |s| :: s[p] != s[q]) ==>
              forall p, q | 0 <= p < q < |s| :: Permute(s, order)[p] != Permute(s, order)[q]
  {
    var r := Permute(s, order);
    forall x | x in s ensures x in r {
      var i :| 0 <= i < |s| && s[i] == x;
      assert i in order;
      var p :| 0 <= p < |order| && order[p] == i;
      assert r[p] == x;
    }
    if forall p, q | 0 <= p < q < |s| :: s[p] != s[q] {
      forall p, q | 0 <= p < q < |s| ensures r[p] != r[q] {
        assert order[p] != order[q];
        if order[p] < order[q] { assert s[order[p]] != s[order[q]]; } else { assert s[order[q]] != s[order[p]]; }
      }
    }
  }
}
