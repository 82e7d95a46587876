/** The reasoning behind the sweep: how far the state of the current byte lasts, and what one step of the
    sweep adds to the pieces and to the warnings. */
module SweepGeometry {
  import opened Addresses
  import opened Symbols
  import opened Intervals

  // ---- Any sorted items, overlapping or not

  /** The sweep's first loop invariant: entry `i`, if there is one, contains `c` or starts after it. */
  ghost predicate Here(rs: seq<Range>, i: nat, c: int) {
    i <= |rs| && (i < |rs| ==> c < rs[i].address || rs[i].Has(c))
  }

  ghost predicate Covers(rs: seq<Range>, i: nat, c: int) {
    i < |rs| && rs[i].address <= c
  }

  /** The next transition after `c`, as an unbounded number. */
  ghost function Next(fs: seq<Range>, i: nat, gs: seq<Range>, j: nat, c: int): int
    requires i < |fs| || j < |gs|
  {
    if Covers(fs, i, c) then
      if Covers(gs, j, c) then Min(fs[i].End(), gs[j].End())
      else if j < |gs| && fs[i].Has(gs[j].address) then gs[j].address
      else fs[i].End()
    else if Covers(gs, j, c) then
      if i < |fs| && gs[j].Has(fs[i].address) then fs[i].address else gs[j].End()
    else if i < |fs| && j < |gs| then Min(fs[i].address, gs[j].address)
    else if i < |fs| then fs[i].address
    else gs[j].address
  }

  /** Every item starts and ends at one of `ends`. */
  ghost predicate EndsIn(rs: seq<Range>, ends: set<int>) {
    forall k | 0 <= k < |rs| :: rs[k].address in ends && rs[k].End() in ends
  }

  /** Each step moves forward. */
  lemma NextIsLater(fs: seq<Range>, i: nat, gs: seq<Range>, j: nat, c: int)
    requires i < |fs| ==> fs[i].Valid()
    requires j < |gs| ==> gs[j].Valid()
    requires Here(fs, i, c) && Here(gs, j, c) && (i < |fs| || j < |gs|)
    ensures c < Next(fs, i, gs, j, c) <= ADDRESS_LIMIT
  {
  }

  /** Each step goes to where some item starts or ends. */
  lemma NextIsEndpoint(fs: seq<Range>, i: nat, gs: seq<Range>, j: nat, c: int, ends: set<int>)
    requires i <= |fs| && j <= |gs| && (i < |fs| || j < |gs|)
    requires EndsIn(fs, ends) && EndsIn(gs, ends)
    ensures Next(fs, i, gs, j, c) in ends
  {
  }

  // ---- Items that do not overlap

  /** Entry `i` is the first that ends after `c`. */
  ghost predicate UpTo(rs: seq<Range>, i: nat, c: int) {
    && i <= |rs|
    && (forall k | 0 <= k < i :: rs[k].End() <= c)
    && (forall k | i <= k < |rs| :: c < rs[k].End())
  }

  /** Entry `i` has all of [c, n) or none of it, and no other entry has any. */
  ghost predicate Uniform(rs: seq<Range>, i: nat, c: int, n: int) {
    && c < n && i <= |rs|
    && (forall k | 0 <= k < i :: rs[k].End() <= c)
    && (forall k | i < k < |rs| :: n <= rs[k].address)
    && (i < |rs| ==> (rs[i].address <= c && n <= rs[i].End()) || n <= rs[i].address)
  }

  /** All the bytes up to the next transition are in the same state. */
  lemma NextIsUniform(fs: seq<Range>, i: nat, gs: seq<Range>, j: nat, c: int)
    requires AllValid(fs) && AllValid(gs) && Separated(fs) && Separated(gs)
    requires UpTo(fs, i, c) && UpTo(gs, j, c) && (i < |fs| || j < |gs|)
    ensures Uniform(fs, i, c, Next(fs, i, gs, j, c)) && Uniform(gs, j, c, Next(fs, i, gs, j, c))
  {
    var n := Next(fs, i, gs, j, c);
    if i < |fs| {
      assert fs[i].Valid();
      forall k | i < k < |fs| ensures fs[i].End() <= fs[k].address {}
    }
    if j < |gs| {
      assert gs[j].Valid();
      forall k | j < k < |gs| ensures gs[j].End() <= gs[k].address {}
    }
  }

  lemma UniformCovered(rs: seq<Range>, i: nat, c: int, n: int, x: int)
    requires Uniform(rs, i, c, n) && c <= x < n
    ensures Covered(rs, x) <==> Covers(rs, i, c)
  {
    if Covers(rs, i, c) { assert rs[i].Has(x); }
  }

  /** If the current byte has both a function and a line, it is the first such byte of the two. */
  ghost predicate AtTransition(fs: seq<Range>, i: nat, gs: seq<Range>, j: nat, c: int) {
    Covers(fs, i, c) && Covers(gs, j, c) ==> c == Max(fs[i].address, gs[j].address)
  }

  /** The pieces function `k` must have once the bytes below `c` are done. */
  function PiecesBelow(f: Range, ls: seq<Line>, c: int): seq<Line> {
    Pieces(f.address, Min(f.End(), c), ls)
  }

  lemma StepPieces(fs: seq<Range>, i: nat, ls: seq<Line>, j: nat, c: Address, n: int, k: nat)
    requires Uniform(fs, i, c, n) && Uniform(Spans(ls), j, c, n)
    requires AtTransition(fs, i, Spans(ls), j, c)
    requires k < |fs|
    ensures PiecesBelow(fs[k], ls, n) ==
            PiecesBelow(fs[k], ls, c) +
            if k == i && Covers(fs, i, c) && Covers(Spans(ls), j, c) then [ls[j].(address := c, size := n - c)] else []
  {
    var f := fs[k];
    if k == i && Covers(fs, i, c) && Covers(Spans(ls), j, c) {
      forall m | 0 <= m < j ensures ls[m].End() <= c { assert Spans(ls)[m].End() <= c; }
      forall m | j < m < |ls| ensures n <= ls[m].address { assert n <= Spans(ls)[m].address; }
      assert Spans(ls)[j].address <= c && n <= Spans(ls)[j].End();
      PiecesGrow(f.address, f.End(), ls, j, c, n);
    } else {
      forall m | 0 <= m < |ls|
        ensures Min(Min(f.End(), n), ls[m].End()) <= Max(Max(f.address, c), ls[m].address)
      {
        var g := Spans(ls)[m];
        assert g.address == ls[m].address && g.End() == ls[m].End();
      }
      PiecesSkip(f.address, f.End(), ls, c, n);
    }
  }

  /** Some byte of `f` below `c` has no line. */
  ghost predicate FunctionGap(f: Range, gs: seq<Range>, c: int) {
    exists x :: f.Has(x) && x < c && !Covered(gs, x)
  }

  lemma StepFunctionGap(fs: seq<Range>, i: nat, gs: seq<Range>, j: nat, c: int, n: int, k: nat)
    requires Uniform(fs, i, c, n) && Uniform(gs, j, c, n)
    requires k < |fs|
    ensures FunctionGap(fs[k], gs, n) <==>
            FunctionGap(fs[k], gs, c) || (k == i && Covers(fs, i, c) && !Covers(gs, j, c))
  {
    if FunctionGap(fs[k], gs, n) {
      var x :| fs[k].Has(x) && x < n && !Covered(gs, x);
      if x >= c { UniformCovered(gs, j, c, n, x); }
    }
    if FunctionGap(fs[k], gs, c) {
      var x :| fs[k].Has(x) && x < c && !Covered(gs, x);
      assert fs[k].Has(x) && x < n && !Covered(gs, x);
    }
    if k == i && Covers(fs, i, c) && !Covers(gs, j, c) {
      UniformCovered(gs, j, c, n, c);
      assert fs[k].Has(c) && c < n && !Covered(gs, c);
    }
  }

  /** Some byte of `g` below `c` has a function. */
  ghost predicate Used(fs: seq<Range>, g: Range, c: int) {
    exists y :: g.Has(y) && y < c && Covered(fs, y)
  }

  lemma StepUsed(fs: seq<Range>, i: nat, gs: seq<Range>, j: nat, c: int, n: int, k: nat)
    requires Uniform(fs, i, c, n) && Uniform(gs, j, c, n)
    requires k < |gs|
    ensures Used(fs, gs[k], n) <==> Used(fs, gs[k], c) || (k == j && Covers(fs, i, c) && Covers(gs, j, c))
  {
    if Used(fs, gs[k], n) {
      var y :| gs[k].Has(y) && y < n && Covered(fs, y);
      if y >= c { UniformCovered(fs, i, c, n, y); }
    }
    if Used(fs, gs[k], c) {
      var y :| gs[k].Has(y) && y < c && Covered(fs, y);
      assert gs[k].Has(y) && y < n && Covered(fs, y);
    }
    if k == j && Covers(fs, i, c) && Covers(gs, j, c) {
      UniformCovered(fs, i, c, n, c);
      assert gs[k].Has(c) && c < n && Covered(fs, c);
    }
  }

  /** A function starts just where `g` ends. */
  ghost predicate AbutsFunction(fs: seq<Range>, g: Range) {
    exists k :: 0 <= k < |fs| && fs[k].address == g.End()
  }

  /** The byte `x` of line `g` is in the padding the sweep does not warn about: the line has been used
      before `x`, no function has any of the line from `x` on, and a function starts where the line ends. */
  ghost predicate Excused(fs: seq<Range>, g: Range, x: int) {
    && Used(fs, g, x)
    && AbutsFunction(fs, g)
    && (forall y | x <= y < g.End() :: !Covered(fs, y))
  }

  /** Some byte of line `g` below `c` has no function, and no excuse. */
  ghost predicate LineGap(fs: seq<Range>, g: Range, c: int) {
    exists x :: g.Has(x) && x < c && !Covered(fs, x) && !Excused(fs, g, x)
  }

  lemma StartIsCovered(fs: seq<Range>, i: nat)
    requires AllValid(fs) && Separated(fs) && i < |fs|
    ensures Covered(fs, fs[i].address) && forall k | i < k < |fs| :: fs[i].address < fs[k].address
  {
    assert fs[i].Valid() && fs[i].Has(fs[i].address);
    assert forall k | i < k < |fs| :: fs[i].End() <= fs[k].address;
  }

  /** The test the sweep makes before it warns about a line: while only line `j` covers the current byte,
      the padding is excused exactly if the line has been used and the next function starts where it ends. */
  lemma ExcuseTest(fs: seq<Range>, i: nat, gs: seq<Range>, j: nat, c: int, n: int, x: int)
    requires AllValid(fs) && Separated(fs)
    requires Uniform(fs, i, c, n) && Uniform(gs, j, c, n)
    requires !Covers(fs, i, c) && Covers(gs, j, c) && c <= x < n
    ensures Excused(fs, gs[j], x) <==> Used(fs, gs[j], c) && i < |fs| && fs[i].address == gs[j].End()
  {
    var g := gs[j];
    if Excused(fs, g, x) {
      var y :| g.Has(y) && y < x && Covered(fs, y);
      if y >= c { UniformCovered(fs, i, c, n, y); }
      var k :| 0 <= k < |fs| && fs[k].address == g.End();
      assert k >= i;
      StartIsCovered(fs, i);
    }
    if Used(fs, g, c) && i < |fs| && fs[i].address == g.End() {
      var y :| g.Has(y) && y < c && Covered(fs, y);
      assert g.Has(y) && y < x && Covered(fs, y);
      forall z | x <= z < g.End() ensures !Covered(fs, z) {
        forall k | 0 <= k < |fs| ensures !fs[k].Has(z) {
          if k > i { assert fs[i].End() <= fs[k].address && fs[i].Valid(); }
        }
      }
    }
  }

  lemma StepLineGap(fs: seq<Range>, i: nat, gs: seq<Range>, j: nat, c: int, n: int, k: nat)
    requires AllValid(fs) && Separated(fs)
    requires Uniform(fs, i, c, n) && Uniform(gs, j, c, n)
    requires k < |gs|
    ensures LineGap(fs, gs[k], n) <==>
            || LineGap(fs, gs[k], c)
            || (k == j && !Covers(fs, i, c) && Covers(gs, j, c)
                && !(Used(fs, gs[j], c) && i < |fs| && fs[i].address == gs[j].End()))
  {
    var g := gs[k];
    if LineGap(fs, g, n) {
      var x :| g.Has(x) && x < n && !Covered(fs, x) && !Excused(fs, g, x);
      if x >= c {
        UniformCovered(fs, i, c, n, x);
        ExcuseTest(fs, i, gs, j, c, n, x);
      }
    }
    if LineGap(fs, g, c) {
      var x :| g.Has(x) && x < c && !Covered(fs, x) && !Excused(fs, g, x);
      assert g.Has(x) && x < n && !Covered(fs, x) && !Excused(fs, g, x);
    }
    if k == j && !Covers(fs, i, c) && Covers(gs, j, c)
       && !(Used(fs, g, c) && i < |fs| && fs[i].address == g.End())
    {
      UniformCovered(fs, i, c, n, c);
      ExcuseTest(fs, i, gs, j, c, n, c);
      assert g.Has(c) && c < n && !Covered(fs, c) && !Excused(fs, g, c);
    }
  }

  /** Nothing of an entry that starts at or after `c` lies below `c`. */
  lemma NothingYet(fs: seq<Range>, gs: seq<Range>, r: Range, c: int)
    requires c <= r.address
    ensures !FunctionGap(r, gs, c) && !Used(fs, r, c) && !LineGap(fs, r, c)
  {
  }

  lemma {:induction false} NoPiecesYet(f: Range, ls: seq<Line>, c: int)
    requires c <= f.address
    ensures PiecesBelow(f, ls, c) == []
  {
    if ls != [] { NoPiecesYet(f, ls[..|ls| - 1], c); }
  }
}
