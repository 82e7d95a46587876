/** The sweep as a sequence of states, and what is true of every such sequence: it is short, it never
    invents an attribution, and when neither functions nor lines overlap it computes exactly the
    intersections and the warnings that are called for. */
module SweepRun {
  import opened Addresses
  import opened Symbols
  import opened Intervals
  import opened Sequences
  import opened SweepGeometry

  /** A warning about the function, or the line, at a position in its vector. */
  datatype Notice = AboutFunction(k: nat) | AboutLine(k: nat)

  /** What the sweep holds at the top of its loop: two iterators, the current address, the pieces handed
      to each function so far, the warnings given so far, and the three pointers kept for the warnings, as
      positions in the vectors with -1 for NULL. */
  datatype State = State(i: nat, j: nat, c: int, pieces: seq<seq<Line>>, notices: seq<Notice>,
                         lineUsed: int, functionCited: int, lineCited: int)

  ghost predicate Active(fs: seq<Range>, ls: seq<Line>, s: State) {
    s.i <= |fs| && s.j <= |ls| && |s.pieces| == |fs| && (s.i < |fs| || s.j < |ls|)
  }

  function Width(c: int, n: int): Address {
    if 0 <= n - c < ADDRESS_LIMIT then n - c else 0
  }

  /** What the step from `c` to `n` appends to function `k`. */
  function Appended(fs: seq<Range>, i: nat, ls: seq<Line>, j: nat, c: int, n: int, k: nat): seq<Line> {
    if k == i && i < |fs| && fs[i].address <= c && j < |ls| && ls[j].address <= c && 0 <= c < ADDRESS_LIMIT
    then [ls[j].(address := c, size := Width(c, n))] else []
  }

  /** The warning the step from `s` gives, if any. */
  ghost function Noticed(fs: seq<Range>, ls: seq<Line>, s: State): seq<Notice>
    requires Active(fs, ls, s)
  {
    var inFunction, inLine := Covers(fs, s.i, s.c), Covers(Spans(ls), s.j, s.c);
    if inFunction && !inLine && s.functionCited != s.i then [AboutFunction(s.i)]
    else if !inFunction && inLine && s.lineCited != s.j
            && !(s.i < |fs| && s.lineUsed == s.j && fs[s.i].address == ls[s.j].End())
    then [AboutLine(s.j)] else []
  }

  /** Half an iteration: hand out a line or warn, and go on to the next transition. */
  ghost function Transition(fs: seq<Range>, ls: seq<Line>, s: State): (t: State)
    requires Active(fs, ls, s)
    ensures |t.pieces| == |fs| && t.i == s.i && t.j == s.j
  {
    var n := Next(fs, s.i, Spans(ls), s.j, s.c);
    var inFunction, inLine := Covers(fs, s.i, s.c), Covers(Spans(ls), s.j, s.c);
    var notice := Noticed(fs, ls, s);
    State(s.i, s.j, n,
          seq(|fs|, k requires 0 <= k < |fs| => s.pieces[k] + Appended(fs, s.i, ls, s.j, s.c, n, k)),
          s.notices + notice,
          if inFunction && inLine then s.j else s.lineUsed,
          if notice != [] && notice[0].AboutFunction? then s.i else s.functionCited,
          if notice != [] && notice[0].AboutLine? then s.j else s.lineCited)
  }

  /** The other half: each iterator skips items that end by the current address, until it reaches one that
      contains the address or starts after it. */
  ghost predicate Moved(fs: seq<Range>, ls: seq<Line>, s: State, t: State) {
    && t == s.(i := t.i, j := t.j) && s.i <= t.i && s.j <= t.j
    && Here(fs, t.i, s.c) && Here(Spans(ls), t.j, s.c)
    && (forall k | s.i <= k < t.i :: fs[k].End() <= s.c)
    && (forall k | s.j <= k < t.j :: Spans(ls)[k].End() <= s.c)
  }

  ghost function Initial(fs: seq<Range>, c: int): State {
    State(0, 0, c, seq(|fs|, _ => []), [], -1, -1, -1)
  }

  ghost predicate Starts(fs: seq<Range>, ls: seq<Line>, s: State) {
    && s == Initial(fs, s.c)
    && (fs != [] || ls != [])
    && (fs != [] ==> s.c <= fs[0].address) && (ls != [] ==> s.c <= ls[0].address)
    && ((fs != [] && s.c == fs[0].address) || (ls != [] && s.c == ls[0].address))
  }

  /** The states at the top of the loop, one for each iteration begun and the last for where it stands. */
  ghost predicate IsRun(fs: seq<Range>, ls: seq<Line>, run: seq<State>) {
    if |run| <= 1 then |run| == 1 && Starts(fs, ls, run[0])
    else
      var s := run[|run| - 2];
      IsRun(fs, ls, run[..|run| - 1]) && Active(fs, ls, s)
      && Transition(fs, ls, s).c < ADDRESS_LIMIT && Moved(fs, ls, Transition(fs, ls, s), run[|run| - 1])
  }

  lemma RunGoesOn(fs: seq<Range>, ls: seq<Line>, run: seq<State>, t: State)
    requires IsRun(fs, ls, run) && Active(fs, ls, run[|run| - 1])
    requires Transition(fs, ls, run[|run| - 1]).c < ADDRESS_LIMIT
    requires Moved(fs, ls, Transition(fs, ls, run[|run| - 1]), t)
    ensures IsRun(fs, ls, run + [t])
  {
    var on := run + [t];
    assert on[..|on| - 1] == run && on[|on| - 2] == run[|run| - 1] && on[|on| - 1] == t;
  }

  /** The run is over: both vectors are used up, or the next transition is the end of the address space. */
  ghost predicate IsOver(fs: seq<Range>, ls: seq<Line>, run: seq<State>, final: State) {
    && IsRun(fs, ls, run)
    && var s := run[|run| - 1];
    if Active(fs, ls, s) then Transition(fs, ls, s).c == ADDRESS_LIMIT && final == Transition(fs, ls, s)
    else final == s
  }

  // ---- Every run, overlaps or not

  /** The loop's first assertion: each iterator is at an item that contains the current address or starts
      after it. And every step moves forward. */
  lemma {:induction false} RunStaysOnTrack(fs: seq<Range>, ls: seq<Line>, run: seq<State>)
    requires AllValid(fs) && AllValid(Spans(ls))
    requires IsRun(fs, ls, run)
    ensures var s := run[|run| - 1];
            && Here(fs, s.i, s.c) && Here(Spans(ls), s.j, s.c) && 0 <= s.c < ADDRESS_LIMIT && |s.pieces| == |fs|
            && (Active(fs, ls, s) ==> s.c < Transition(fs, ls, s).c <= ADDRESS_LIMIT)
  {
    var s := run[|run| - 1];
    if |run| > 1 {
      var before := run[|run| - 2];
      assert run[..|run| - 1][|run| - 2] == before;
      RunStaysOnTrack(fs, ls, run[..|run| - 1]);
      assert Active(fs, ls, before);
    }
    if Active(fs, ls, s) {
      assert s.i < |fs| ==> fs[s.i].Valid();
      assert s.j < |ls| ==> Spans(ls)[s.j].Valid();
      NextIsLater(fs, s.i, Spans(ls), s.j, s.c);
    }
  }

  /** Where the items start and end. */
  ghost function Endpoints(rs: seq<Range>): (s: set<int>)
    ensures |s| <= 2 * |rs|
  {
    if rs == [] then {}
    else
      var n := |rs| - 1;
      Endpoints(rs[..n]) + {rs[n].address} + {rs[n].End()}
  }

  /** Nothing else is in it. */
  lemma {:induction false} EndpointsAreEnds(rs: seq<Range>, x: int)
    ensures x in Endpoints(rs) <==> exists k :: 0 <= k < |rs| && (x == rs[k].address || x == rs[k].End())
  {
    if rs != [] {
      var n := |rs| - 1;
      EndpointsAreEnds(rs[..n], x);
      assert forall k | 0 <= k < n :: rs[..n][k] == rs[k];
      if x in Endpoints(rs) && x != rs[n].address && x != rs[n].End() {
        var k :| 0 <= k < n && (x == rs[..n][k].address || x == rs[..n][k].End());
        assert x == rs[k].address || x == rs[k].End();
      }
    }
  }

  lemma EndpointsHaveEnds(rs: seq<Range>)
    ensures EndsIn(rs, Endpoints(rs))
  {
    forall k | 0 <= k < |rs| ensures rs[k].address in Endpoints(rs) && rs[k].End() in Endpoints(rs) {
      EndpointsAreEnds(rs, rs[k].address);
      EndpointsAreEnds(rs, rs[k].End());
    }
  }

  function Stops(run: seq<State>): (r: seq<int>)
    ensures |r| == |run| && forall p | 0 <= p < |r| :: r[p] == run[p].c
  {
    seq(|run|, p requires 0 <= p < |run| => run[p].c)
  }

  ghost predicate Increasing(s: seq<int>) {
    forall p, q | 0 <= p < q < |s| :: s[p] < s[q]
  }

  lemma IncreasingOn(s: seq<int>, x: int)
    requires Increasing(s) && (s != [] ==> s[|s| - 1] < x)
    ensures Increasing(s + [x])
  {
    var t := s + [x];
    forall p, q | 0 <= p < q < |t| ensures t[p] < t[q] {
      if q == |s| { assert s[p] <= s[|s| - 1]; }
    }
  }

  /** The current address only ever grows. */
  lemma {:induction false} RunIncreases(fs: seq<Range>, ls: seq<Line>, run: seq<State>)
    requires AllValid(fs) && AllValid(Spans(ls))
    requires IsRun(fs, ls, run)
    ensures Increasing(Stops(run))
  {
    if |run| > 1 {
      var before, t := run[..|run| - 1], run[|run| - 1];
      RunIncreases(fs, ls, before);
      assert before[|before| - 1].c < t.c by { RunStaysOnTrack(fs, ls, before); }
      IncreasingOn(Stops(before), t.c);
      assert Stops(run) == Stops(before) + [t.c];
    }
  }

  /** Each value the current address takes is where some item starts or ends. */
  lemma {:induction false} RunVisitsEndpoints(fs: seq<Range>, ls: seq<Line>, run: seq<State>, ends: set<int>)
    requires EndsIn(fs, ends) && EndsIn(Spans(ls), ends)
    requires IsRun(fs, ls, run)
    ensures forall p | 0 <= p < |run| :: run[p].c in ends
  {
    if |run| == 1 {
      assert fs != [] ==> fs[0].address in ends;
      assert ls != [] ==> Spans(ls)[0].address in ends;
    } else {
      var before := run[..|run| - 1];
      var s := before[|before| - 1];
      RunVisitsEndpoints(fs, ls, before, ends);
      NextIsEndpoint(fs, s.i, Spans(ls), s.j, s.c, ends);
      assert forall p | 0 <= p < |before| :: run[p] == before[p];
    }
  }

  lemma {:induction false} IncreasingFits(s: seq<int>, within: set<int>)
    requires Increasing(s) && forall p | 0 <= p < |s| :: s[p] in within
    ensures |s| <= |within|
  {
    if s != [] {
      var last := s[|s| - 1];
      assert Increasing(s[..|s| - 1]);
      IncreasingFits(s[..|s| - 1], within - {last});
    }
  }

  /** However functions overlap functions and lines overlap lines, the loop is entered no more than twice
      as often as there are items: it cannot hang. */
  lemma RunIsShort(fs: seq<Range>, ls: seq<Line>, run: seq<State>)
    requires AllValid(fs) && AllValid(Spans(ls))
    requires IsRun(fs, ls, run)
    ensures |run| <= 2 * (|fs| + |ls|)
  {
    var ends := Endpoints(fs) + Endpoints(Spans(ls));
    EndpointsHaveEnds(fs);
    EndpointsHaveEnds(Spans(ls));
    RunIncreases(fs, ls, run);
    RunVisitsEndpoints(fs, ls, run, ends);
    IncreasingFits(Stops(run), ends);
  }

  /** Piece `p` was cut from a line, and lies inside both that line and `f`. */
  ghost predicate CutFrom(p: Line, f: Range, ls: seq<Line>) {
    exists l :: l in ls && p.file == l.file && p.number == l.number && p.size > 0
                && Max(f.address, l.address) <= p.address && p.End() <= Min(f.End(), l.End())
  }

  ghost predicate AllCut(fs: seq<Range>, ls: seq<Line>, pieces: seq<seq<Line>>) {
    |pieces| == |fs|
    && forall k, m | 0 <= k < |fs| && 0 <= m < |pieces[k]| :: CutFrom(pieces[k][m], fs[k], ls)
  }

  lemma TransitionCuts(fs: seq<Range>, ls: seq<Line>, s: State)
    requires AllValid(fs) && AllValid(Spans(ls)) && Active(fs, ls, s)
    requires Here(fs, s.i, s.c) && Here(Spans(ls), s.j, s.c) && 0 <= s.c < ADDRESS_LIMIT
    requires AllCut(fs, ls, s.pieces)
    ensures AllCut(fs, ls, Transition(fs, ls, s).pieces)
  {
    var t := Transition(fs, ls, s);
    forall k, m | 0 <= k < |fs| && 0 <= m < |t.pieces[k]| ensures CutFrom(t.pieces[k][m], fs[k], ls) {
      if m < |s.pieces[k]| {
        assert t.pieces[k][m] == s.pieces[k][m];
      } else {
        assert t.pieces[k][m] == Appended(fs, s.i, ls, s.j, s.c, t.c, k)[m - |s.pieces[k]|];
        var l := ls[s.j];
        assert Spans(ls)[s.j].Valid() && fs[s.i].Valid() && l in ls;
      }
    }
  }

  /** Whatever overlaps what, everything handed to a function is a part of it that some line covers, and is
      attributed as that line is. */
  lemma {:induction false} RunCuts(fs: seq<Range>, ls: seq<Line>, run: seq<State>)
    requires AllValid(fs) && AllValid(Spans(ls))
    requires IsRun(fs, ls, run)
    ensures AllCut(fs, ls, run[|run| - 1].pieces)
  {
    if |run| > 1 {
      var before := run[..|run| - 1];
      RunCuts(fs, ls, before);
      RunStaysOnTrack(fs, ls, before);
      TransitionCuts(fs, ls, before[|before| - 1]);
    }
  }

  // ---- Runs over items that do not overlap

  /** Some byte of the function `f` has no line: the reason for an UncoveredFunction warning. */
  ghost predicate HasUnlinedByte(f: Range, gs: seq<Range>) {
    exists x :: f.Has(x) && !Covered(gs, x)
  }

  /** Some byte of line `g` has no function, other than excused padding: the reason for an UncoveredLine
      warning. */
  ghost predicate HasStrayByte(g: Range, fs: seq<Range>) {
    exists x :: g.Has(x) && !Covered(fs, x) && !Excused(fs, g, x)
  }

  ghost predicate Exact(fs: seq<Range>, ls: seq<Line>, pieces: seq<seq<Line>>, c: int) {
    |pieces| == |fs| && forall k | 0 <= k < |fs| :: pieces[k] == PiecesBelow(fs[k], ls, c)
  }

  predicate InBounds(x: Notice, functions: nat, lines: nat) {
    match x case AboutFunction(k) => k < functions case AboutLine(k) => k < lines
  }

  ghost predicate AllInBounds(notices: seq<Notice>, functions: nat, lines: nat) {
    forall p | 0 <= p < |notices| :: InBounds(notices[p], functions, lines)
  }

  ghost predicate Warned(fs: seq<Range>, gs: seq<Range>, notices: seq<Notice>, c: int) {
    && Distinct(notices) && AllInBounds(notices, |fs|, |gs|)
    && (forall k: nat | k < |fs| :: AboutFunction(k) in notices <==> FunctionGap(fs[k], gs, c))
    && (forall k: nat | k < |gs| :: AboutLine(k) in notices <==> LineGap(fs, gs[k], c))
  }

  ghost predicate Remembered(fs: seq<Range>, gs: seq<Range>, s: State) {
    && -1 <= s.lineUsed <= s.j && -1 <= s.functionCited <= s.i && -1 <= s.lineCited <= s.j
    && (s.i < |fs| ==> (s.functionCited == s.i <==> FunctionGap(fs[s.i], gs, s.c)))
    && (s.j < |gs| ==> (s.lineCited == s.j <==> LineGap(fs, gs[s.j], s.c)))
    && (s.j < |gs| ==> (s.lineUsed == s.j <==> Used(fs, gs[s.j], s.c)))
  }

  /** The sweep's invariant when nothing overlaps. */
  ghost predicate Good(fs: seq<Range>, ls: seq<Line>, s: State) {
    && 0 <= s.c < ADDRESS_LIMIT
    && UpTo(fs, s.i, s.c) && UpTo(Spans(ls), s.j, s.c) && AtTransition(fs, s.i, Spans(ls), s.j, s.c)
    && Exact(fs, ls, s.pieces, s.c) && Warned(fs, Spans(ls), s.notices, s.c) && Remembered(fs, Spans(ls), s)
  }

  lemma TransitionIsExact(fs: seq<Range>, ls: seq<Line>, s: State)
    requires AllValid(fs) && Active(fs, ls, s) && Good(fs, ls, s)
    requires var n := Next(fs, s.i, Spans(ls), s.j, s.c);
             Uniform(fs, s.i, s.c, n) && Uniform(Spans(ls), s.j, s.c, n) && n <= ADDRESS_LIMIT
    ensures Exact(fs, ls, Transition(fs, ls, s).pieces, Transition(fs, ls, s).c)
  {
    var t := Transition(fs, ls, s);
    forall k | 0 <= k < |fs| ensures t.pieces[k] == PiecesBelow(fs[k], ls, t.c) {
      StepPieces(fs, s.i, ls, s.j, s.c, t.c, k);
    }
  }

  lemma TransitionWarns(fs: seq<Range>, ls: seq<Line>, s: State)
    requires AllValid(fs) && Separated(fs) && Active(fs, ls, s)
    requires Warned(fs, Spans(ls), s.notices, s.c) && Remembered(fs, Spans(ls), s)
    requires var n := Next(fs, s.i, Spans(ls), s.j, s.c);
             Uniform(fs, s.i, s.c, n) && Uniform(Spans(ls), s.j, s.c, n)
    ensures Warned(fs, Spans(ls), Transition(fs, ls, s).notices, Transition(fs, ls, s).c)
  {
    var t := Transition(fs, ls, s);
    var gs := Spans(ls);
    forall k: nat | k < |fs| ensures AboutFunction(k) in t.notices <==> FunctionGap(fs[k], gs, t.c) {
      StepFunctionGap(fs, s.i, gs, s.j, s.c, t.c, k);
    }
    forall k: nat | k < |gs| ensures AboutLine(k) in t.notices <==> LineGap(fs, gs[k], t.c) {
      StepLineGap(fs, s.i, gs, s.j, s.c, t.c, k);
    }
  }

  lemma TransitionRemembers(fs: seq<Range>, ls: seq<Line>, s: State)
    requires AllValid(fs) && Separated(fs) && Active(fs, ls, s)
    requires Remembered(fs, Spans(ls), s)
    requires var n := Next(fs, s.i, Spans(ls), s.j, s.c);
             Uniform(fs, s.i, s.c, n) && Uniform(Spans(ls), s.j, s.c, n)
    ensures Remembered(fs, Spans(ls), Transition(fs, ls, s))
  {
    var t := Transition(fs, ls, s);
    var gs := Spans(ls);
    if s.i < |fs| { StepFunctionGap(fs, s.i, gs, s.j, s.c, t.c, s.i); }
    if s.j < |gs| {
      StepLineGap(fs, s.i, gs, s.j, s.c, t.c, s.j);
      StepUsed(fs, s.i, gs, s.j, s.c, t.c, s.j);
    }
  }

  /** Once the iterators have moved past what ends by `n`, they stand on what comes next. */
  lemma Arrived(rs: seq<Range>, i: nat, c: int, n: int, i': nat)
    requires AllValid(rs) && Separated(rs) && UpTo(rs, i, c) && c < n
    requires i <= i' && Here(rs, i', n) && (forall k | i <= k < i' :: rs[k].End() <= n)
    ensures UpTo(rs, i', n)
  {
    forall k | i' <= k < |rs| ensures n < rs[k].End() {
      assert rs[k].Valid();
      if i' < k { assert rs[i'].End() <= rs[k].address; }
    }
  }

  lemma ArrivedAtTransition(fs: seq<Range>, i: nat, gs: seq<Range>, j: nat, c: int, i': nat, j': nat)
    requires i < |fs| || j < |gs|
    requires var n := Next(fs, i, gs, j, c);
             && Uniform(fs, i, c, n) && Uniform(gs, j, c, n)
             && i <= i' && j <= j' && Here(fs, i', n) && Here(gs, j', n)
    ensures AtTransition(fs, i', gs, j', Next(fs, i, gs, j, c))
  {
  }

  /** Moving the iterators leaves the remembered pointers right. */
  lemma MovedRemembers(fs: seq<Range>, ls: seq<Line>, s: State, t: State, c: int)
    requires Uniform(fs, s.i, c, s.c) && Uniform(Spans(ls), s.j, c, s.c)
    requires Remembered(fs, Spans(ls), s) && Moved(fs, ls, s, t)
    ensures Remembered(fs, Spans(ls), t)
  {
    var gs := Spans(ls);
    if s.i < t.i < |fs| { NothingYet(fs, gs, fs[t.i], s.c); }
    if s.j < t.j < |gs| { NothingYet(fs, gs, gs[t.j], s.c); }
  }

  lemma GoodStep(fs: seq<Range>, ls: seq<Line>, s: State)
    requires AllValid(fs) && Separated(fs) && AllValid(Spans(ls)) && Separated(Spans(ls))
    requires Active(fs, ls, s) && Good(fs, ls, s)
    requires Transition(fs, ls, s).c <= ADDRESS_LIMIT
    ensures var t := Transition(fs, ls, s);
            && Exact(fs, ls, t.pieces, t.c) && Warned(fs, Spans(ls), t.notices, t.c)
            && forall u | t.c < ADDRESS_LIMIT && Moved(fs, ls, t, u) :: Good(fs, ls, u)
  {
    NextIsUniform(fs, s.i, Spans(ls), s.j, s.c);
    TransitionIsExact(fs, ls, s);
    TransitionWarns(fs, ls, s);
    TransitionRemembers(fs, ls, s);
    var t := Transition(fs, ls, s);
    forall u | t.c < ADDRESS_LIMIT && Moved(fs, ls, t, u) ensures Good(fs, ls, u) {
      Arrived(fs, s.i, s.c, t.c, u.i);
      Arrived(Spans(ls), s.j, s.c, t.c, u.j);
      ArrivedAtTransition(fs, s.i, Spans(ls), s.j, s.c, u.i, u.j);
      MovedRemembers(fs, ls, t, u, s.c);
    }
  }

  /** Before the first item nothing has been seen. */
  lemma GoodStart(fs: seq<Range>, ls: seq<Line>, s: State)
    requires AllValid(fs) && AllValid(Spans(ls)) && Sorted(fs) && Sorted(Spans(ls))
    requires Starts(fs, ls, s)
    ensures Good(fs, ls, s)
  {
    var gs := Spans(ls);
    forall k | 0 <= k < |fs|
      ensures s.c < fs[k].End() && PiecesBelow(fs[k], ls, s.c) == [] && !FunctionGap(fs[k], gs, s.c)
    {
      assert fs[k].Valid() && (k > 0 ==> fs[0].address <= fs[k].address);
      NoPiecesYet(fs[k], ls, s.c);
      NothingYet(fs, gs, fs[k], s.c);
    }
    forall k | 0 <= k < |gs| ensures s.c < gs[k].End() && !LineGap(fs, gs[k], s.c) && !Used(fs, gs[k], s.c) {
      assert gs[k].Valid() && (k > 0 ==> gs[0].address <= gs[k].address);
      NothingYet(fs, gs, gs[k], s.c);
    }
  }

  /** The sweep's second invariant, and everything else it maintains, holds at the top of every iteration. */
  lemma {:induction false} RunIsGood(fs: seq<Range>, ls: seq<Line>, run: seq<State>)
    requires AllValid(fs) && AllValid(Spans(ls)) && Sorted(fs) && Sorted(Spans(ls))
    requires Separated(fs) && Separated(Spans(ls))
    requires IsRun(fs, ls, run)
    ensures Good(fs, ls, run[|run| - 1])
  {
    if |run| == 1 {
      GoodStart(fs, ls, run[0]);
    } else {
      var before := run[..|run| - 1];
      RunIsGood(fs, ls, before);
      GoodStep(fs, ls, before[|before| - 1]);
    }
  }

  /** What the sweep must have produced, function by function and line by line. */
  ghost predicate Complete(fs: seq<Range>, ls: seq<Line>, final: State) {
    && |final.pieces| == |fs| && Distinct(final.notices) && AllInBounds(final.notices, |fs|, |ls|)
    && (forall k | 0 <= k < |fs| :: final.pieces[k] == Pieces(fs[k].address, fs[k].End(), ls))
    && (forall k: nat | k < |fs| :: AboutFunction(k) in final.notices <==> HasUnlinedByte(fs[k], Spans(ls)))
    && (forall k: nat | k < |ls| :: AboutLine(k) in final.notices <==> HasStrayByte(Spans(ls)[k], fs))
  }

  /** When every item ends by `c`, what is exact below `c` is exact. */
  lemma Finished(fs: seq<Range>, ls: seq<Line>, s: State)
    requires forall k | 0 <= k < |fs| :: fs[k].End() <= s.c
    requires forall k | 0 <= k < |ls| :: Spans(ls)[k].End() <= s.c
    requires Exact(fs, ls, s.pieces, s.c) && Warned(fs, Spans(ls), s.notices, s.c)
    ensures Complete(fs, ls, s)
  {
    forall k | 0 <= k < |fs|
      ensures PiecesBelow(fs[k], ls, s.c) == Pieces(fs[k].address, fs[k].End(), ls)
      ensures FunctionGap(fs[k], Spans(ls), s.c) <==> HasUnlinedByte(fs[k], Spans(ls))
    {
      assert fs[k].End() <= s.c;
      if HasUnlinedByte(fs[k], Spans(ls)) {
        var x :| fs[k].Has(x) && !Covered(Spans(ls), x);
        assert fs[k].Has(x) && x < s.c && !Covered(Spans(ls), x);
      }
    }
    forall k | 0 <= k < |ls| ensures LineGap(fs, Spans(ls)[k], s.c) <==> HasStrayByte(Spans(ls)[k], fs) {
      var g := Spans(ls)[k];
      if HasStrayByte(g, fs) {
        var x :| g.Has(x) && !Covered(fs, x) && !Excused(fs, g, x);
        assert g.Has(x) && x < s.c && !Covered(fs, x) && !Excused(fs, g, x);
      }
    }
  }

  /** When no two functions and no two lines share a byte, a finished run has given every function exactly
      its intersections with the lines, and has warned exactly once about each item that calls for it. */
  lemma FinishedRunIsComplete(fs: seq<Range>, ls: seq<Line>, run: seq<State>, final: State)
    requires AllValid(fs) && AllValid(Spans(ls)) && Sorted(fs) && Sorted(Spans(ls))
    requires Separated(fs) && Separated(Spans(ls))
    requires IsOver(fs, ls, run, final)
    ensures Complete(fs, ls, final)
  {
    var s := run[|run| - 1];
    RunIsGood(fs, ls, run);
    RunStaysOnTrack(fs, ls, run);
    if Active(fs, ls, s) { GoodStep(fs, ls, s); }
    forall k | 0 <= k < |fs| ensures fs[k].End() <= final.c { assert fs[k].Valid(); }
    forall k | 0 <= k < |ls| ensures Spans(ls)[k].End() <= final.c { assert Spans(ls)[k].Valid(); }
    Finished(fs, ls, final);
  }

  lemma FinishedRunIsCut(fs: seq<Range>, ls: seq<Line>, run: seq<State>, final: State)
    requires AllValid(fs) && AllValid(Spans(ls))
    requires IsOver(fs, ls, run, final)
    ensures AllCut(fs, ls, final.pieces)
  {
    var s := run[|run| - 1];
    RunCuts(fs, ls, run);
    RunStaysOnTrack(fs, ls, run);
    if Active(fs, ls, s) { TransitionCuts(fs, ls, s); }
  }

  lemma {:induction false} RunInBounds(fs: seq<Range>, ls: seq<Line>, run: seq<State>)
    requires IsRun(fs, ls, run)
    ensures AllInBounds(run[|run| - 1].notices, |fs|, |ls|)
  {
    if |run| > 1 { RunInBounds(fs, ls, run[..|run| - 1]); }
  }

  lemma FinishedRunInBounds(fs: seq<Range>, ls: seq<Line>, run: seq<State>, final: State)
    requires IsOver(fs, ls, run, final)
    ensures AllInBounds(final.notices, |fs|, |ls|)
  {
    RunInBounds(fs, ls, run);
  }
}
