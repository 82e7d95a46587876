/** Runs of bytes, and what it means to cut one list of them along another. */
module Intervals {
  import opened Addresses
  import opened Symbols

  /** The bytes from `address` up to, but not including, `End()`; the end may be exactly 2^64. */
  datatype Range = Range(address: Address, size: Address) {
    function End(): int { address + size }

    predicate Has(x: int) { address <= x < End() }

    /** Non-empty, and does not wrap around the end of the address space. */
    predicate Valid() { size > 0 && End() <= ADDRESS_LIMIT }
  }

  function RangeOf(l: Line): Range {
    Range(l.address, l.size)
  }

  function Spans(ls: seq<Line>): (rs: seq<Range>)
    ensures |rs| == |ls| && forall k | 0 <= k < |ls| :: rs[k] == RangeOf(ls[k])
  {
    seq(|ls|, k requires 0 <= k < |ls| => RangeOf(ls[k]))
  }

  ghost predicate AllValid(rs: seq<Range>) {
    forall k | 0 <= k < |rs| :: rs[k].Valid()
  }

  ghost predicate Sorted(rs: seq<Range>) {
    forall p, q | 0 <= p < q < |rs| :: rs[p].address <= rs[q].address
  }

  /** No two entries share a byte. */
  ghost predicate PairwiseDisjoint(rs: seq<Range>) {
    forall p, q | 0 <= p < |rs| && 0 <= q < |rs| && p != q :: rs[p].End() <= rs[q].address || rs[q].End() <= rs[p].address
  }

  /** Every entry ends before the next begins. */
  ghost predicate Separated(rs: seq<Range>) {
    forall p, q | 0 <= p < q < |rs| :: rs[p].End() <= rs[q].address
  }

  lemma SortedDisjointIsSeparated(rs: seq<Range>)
    requires AllValid(rs) && Sorted(rs) && PairwiseDisjoint(rs)
    ensures Separated(rs)
  {
  }

  /** Some entry contains the byte at `x`. */
  ghost predicate Covered(rs: seq<Range>, x: int) {
    exists k :: 0 <= k < |rs| && rs[k].Has(x)
  }

  /** Line `l` has a byte within [lo, hi). */
  predicate Meets(lo: Address, hi: int, l: Line) {
    Max(lo, l.address) < Min(hi, l.End())
  }

  /** The intersection of line `l` with [lo, hi), attributed as `l` is. */
  function Cut(lo: Address, hi: int, l: Line): Line
    requires Meets(lo, hi, l)
  {
    l.(address := Max(lo, l.address), size := Min(hi, l.End()) - Max(lo, l.address))
  }

  function Piece(lo: Address, hi: int, l: Line): seq<Line> {
    if Meets(lo, hi, l) then [Cut(lo, hi, l)] else []
  }

  /** The parts of the lines `ls` that lie within [lo, hi), in the order of the lines. */
  function Pieces(lo: Address, hi: int, ls: seq<Line>): seq<Line> {
    if ls == [] then []
    else Pieces(lo, hi, ls[..|ls| - 1]) + Piece(lo, hi, ls[|ls| - 1])
  }

  /** Bytes no line has add nothing: only the bytes in [c, n) separate the two upper ends. */
  lemma {:induction false} PiecesSkip(lo: Address, hi: int, ls: seq<Line>, c: int, n: int)
    requires c <= n
    requires forall k | 0 <= k < |ls| ::
               Min(Min(hi, n), ls[k].End()) <= Max(Max(lo, c), ls[k].address)
    ensures Pieces(lo, Min(hi, n), ls) == Pieces(lo, Min(hi, c), ls)
  {
    if ls != [] {
      PiecesSkip(lo, hi, ls[..|ls| - 1], c, n);
      var l := ls[|ls| - 1];
      assert Min(Min(hi, n), l.End()) <= Max(Max(lo, c), l.address);
      assert Piece(lo, Min(hi, n), l) == Piece(lo, Min(hi, c), l);
    }
  }

  /** When line `j` alone has the bytes of [c, n), and has none of them before `c`, it adds one piece. */
  lemma {:induction false} PiecesGrow(lo: Address, hi: int, ls: seq<Line>, j: nat, c: Address, n: int)
    requires j < |ls| && lo <= c < n <= hi
    requires ls[j].address <= c && n <= ls[j].End()
    requires c == Max(lo, ls[j].address)
    requires forall k | 0 <= k < j :: ls[k].End() <= c
    requires forall k | j < k < |ls| :: n <= ls[k].address
    ensures Pieces(lo, n, ls) == Pieces(lo, c, ls) + [ls[j].(address := c, size := n - c)]
  {
    var l := ls[|ls| - 1];
    var rest := ls[..|ls| - 1];
    if j == |rest| {
      forall k | 0 <= k < |rest|
        ensures Min(Min(n, n), rest[k].End()) <= Max(Max(lo, c), rest[k].address)
      {
        assert ls[k].End() <= c;
      }
      PiecesSkip(lo, n, rest, c, n);
      assert Piece(lo, c, l) == [];
    } else {
      forall k | j < k < |rest| ensures n <= rest[k].address { assert ls[k] == rest[k]; }
      PiecesGrow(lo, hi, rest, j, c, n);
      assert n <= ls[|ls| - 1].address;
      assert Piece(lo, n, l) == [] && Piece(lo, c, l) == [];
      assert Pieces(lo, n, ls) == Pieces(lo, n, rest) + [];
      assert Pieces(lo, c, ls) == Pieces(lo, c, rest) + [];
    }
  }

  // ---- What the pieces mean

  /** There is a piece for each line that meets [lo, hi), and no other: that line's intersection with
      [lo, hi), keeping the line's file and number. */
  lemma {:induction false} PiecesAreIntersections(lo: Address, hi: int, ls: seq<Line>, p: Line)
    ensures p in Pieces(lo, hi, ls) <==> exists l :: l in ls && Meets(lo, hi, l) && p == Cut(lo, hi, l)
  {
    if ls != [] {
      var rest, last := ls[..|ls| - 1], ls[|ls| - 1];
      PiecesAreIntersections(lo, hi, rest, p);
      assert forall l :: l in ls <==> l in rest || l == last;
    }
  }

  /** The pieces of separated lines are themselves non-empty, separated and inside [lo, hi), so there is
      just one for each line that meets [lo, hi). */
  lemma {:induction false} PiecesAreSeparated(lo: Address, hi: int, ls: seq<Line>)
    requires Separated(Spans(ls)) && AllValid(Spans(ls))
    ensures Separated(Spans(Pieces(lo, hi, ls)))
    ensures AllValid(Spans(Pieces(lo, hi, ls)))
    ensures forall p | p in Pieces(lo, hi, ls) ::
              lo <= p.address && p.End() <= hi && p.End() <= ls[|ls| - 1].End()
  {
    if ls != [] {
      var rest, last := ls[..|ls| - 1], ls[|ls| - 1];
      SeparatedPrefix(ls);
      PiecesAreSeparated(lo, hi, rest);
      var ps, qs := Pieces(lo, hi, ls), Pieces(lo, hi, rest);
      forall p | p in qs ensures p.End() <= last.address {
        assert Spans(ls)[|rest| - 1].End() <= Spans(ls)[|rest|].address;
      }
      assert Spans(ls)[|rest|].Valid();
      forall a, b | 0 <= a < b < |ps| ensures Spans(ps)[a].End() <= Spans(ps)[b].address {
        assert ps[a] == qs[a] && qs[a] in qs;
        if b < |qs| { assert Spans(qs)[a].End() <= Spans(qs)[b].address; }
      }
      forall a | 0 <= a < |ps| ensures Spans(ps)[a].Valid() {
        if a < |qs| { assert Spans(qs)[a].Valid(); }
      }
    }
  }

  lemma SeparatedPrefix(ls: seq<Line>)
    requires Separated(Spans(ls)) && AllValid(Spans(ls)) && ls != []
    ensures Separated(Spans(ls[..|ls| - 1])) && AllValid(Spans(ls[..|ls| - 1]))
  {
    assert Spans(ls[..|ls| - 1]) == Spans(ls)[..|ls| - 1];
  }

  function TotalSize(ls: seq<Line>): int {
    if ls == [] then 0 else TotalSize(ls[..|ls| - 1]) + ls[|ls| - 1].size
  }

  /** The bytes from `lo` up to, but not including, `hi`. */
  ghost function Interval(lo: int, hi: int): (s: set<int>)
    ensures forall x :: x in s <==> lo <= x < hi
    ensures lo <= hi ==> |s| == hi - lo
    decreases hi - lo
  {
    if lo < hi then Interval(lo, hi - 1) + {hi - 1} else {}
  }

  /** The bytes of [lo, hi) that lie in one of `rs`. */
  ghost function CommonBytes(lo: int, hi: int, rs: seq<Range>): set<int> {
    set x | x in Interval(lo, hi) && Covered(rs, x)
  }

  lemma CoveredByLast(rs: seq<Range>, x: int)
    requires rs != []
    ensures Covered(rs, x) <==> Covered(rs[..|rs| - 1], x) || rs[|rs| - 1].Has(x)
  {
    var n := |rs| - 1;
    if Covered(rs[..n], x) {
      var k :| 0 <= k < n && rs[..n][k].Has(x);
      assert rs[k].Has(x);
    }
    if Covered(rs, x) && !rs[n].Has(x) {
      var k :| 0 <= k <= n && rs[k].Has(x);
      assert rs[..n][k].Has(x);
    }
  }

  lemma CommonBytesLast(lo: int, hi: int, rs: seq<Range>)
    requires Separated(rs) && rs != []
    ensures var r := rs[|rs| - 1];
            var before := CommonBytes(lo, hi, rs[..|rs| - 1]);
            var last := Interval(Max(lo, r.address), Min(hi, r.End()));
            CommonBytes(lo, hi, rs) == before + last && before !! last
  {
    var n := |rs| - 1;
    var before, last := CommonBytes(lo, hi, rs[..n]), Interval(Max(lo, rs[n].address), Min(hi, rs[n].End()));
    forall x ensures x in CommonBytes(lo, hi, rs) <==> x in before || x in last {
      CoveredByLast(rs, x);
    }
    forall x | x in before ensures x !in last {
      var k :| 0 <= k < n && rs[..n][k].Has(x);
      assert rs[k].End() <= rs[n].address;
    }
  }

  /** The sizes of the pieces add up to the number of bytes that [lo, hi) and the lines share. */
  lemma {:induction false} PiecesCountCommonBytes(lo: Address, hi: int, ls: seq<Line>)
    requires Separated(Spans(ls))
    ensures TotalSize(Pieces(lo, hi, ls)) == |CommonBytes(lo, hi, Spans(ls))|
  {
    if ls != [] {
      var rest, l := ls[..|ls| - 1], ls[|ls| - 1];
      assert Spans(rest) == Spans(ls)[..|ls| - 1];
      PiecesCountCommonBytes(lo, hi, rest);
      CommonBytesLast(lo, hi, Spans(ls));
      assert |CommonBytes(lo, hi, Spans(ls))| == |CommonBytes(lo, hi, Spans(rest))|
          + |Interval(Max(lo, l.address), Min(hi, l.End()))|;
      var ps := Pieces(lo, hi, ls);
      if Meets(lo, hi, l) {
        assert ps[..|ps| - 1] == Pieces(lo, hi, rest);
      } else {
        assert ps == Pieces(lo, hi, rest);
        assert Interval(Max(lo, l.address), Min(hi, l.End())) == {};
      }
    }
  }
}
