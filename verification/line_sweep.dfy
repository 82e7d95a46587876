/** DwarfCUToModule::AssignLinesToFunctions: one pass over a compilation unit's functions and source
    lines that gives each function the lines, cut to fit, that its bytes are attributed to. */
module LineSweep {
  import opened Addresses
  import opened Symbols
  import opened Sorting
  import opened Intervals
  import opened Sequences
  import opened SweepGeometry
  import opened SweepRun

  /** What the sweep tells the WarningReporter. */
  datatype Warning =
    | UncoveredFunction(func: Function)
    | UncoveredLine(line: Line)

  function FunctionRange(f: Function): Range
    reads f`size
  {
    Range(f.address, f.size)
  }

  function FunctionSpans(fs: seq<Function>): (rs: seq<Range>)
    reads fs`size
    ensures |rs| == |fs| && forall k | 0 <= k < |fs| :: rs[k] == FunctionRange(fs[k])
  {
    if fs == [] then [] else FunctionSpans(fs[..|fs| - 1]) + [FunctionRange(fs[|fs| - 1])]
  }

  /** `fs` gives the extents of the functions. */
  ghost predicate Describes(fs: seq<Range>, functions: seq<Function>)
    reads functions`size
  {
    |fs| == |functions|
    && forall k | 0 <= k < |fs| :: fs[k] == Range(functions[k].address, functions[k].size)
  }

  /** Does the byte at `address` fall within the range? Subtraction wraps, so an address before the start
      is as far out as one past the end. */
  predicate Within(address: Address, size: Address, x: Address) {
    Sub(x, address) < size
  }

  lemma WithinIsHas(r: Range, x: Address)
    requires r.Valid()
    ensures Within(r.address, r.size, x) <==> r.Has(x)
  {
  }

  /** The warning as the reporter gets it. */
  function Report(functions: seq<Function>, ls: seq<Line>, x: Notice): Warning
    requires InBounds(x, |functions|, |ls|)
  {
    match x case AboutFunction(k) => UncoveredFunction(functions[k]) case AboutLine(k) => UncoveredLine(ls[k])
  }

  /** The sweep's state as the loop's variables hold it. */
  ghost predicate Holds(s: State, i: nat, j: nat, current: int, lastLineUsed: int, lastFunctionCited: int, lastLineCited: int) {
    s.i == i && s.j == j && s.c == current
    && s.lineUsed == lastLineUsed && s.functionCited == lastFunctionCited && s.lineCited == lastLineCited
  }

  /** `has` gives the functions' lines. */
  ghost predicate HasLines(functions: seq<Function>, has: seq<seq<Line>>)
    reads functions`lines
  {
    |has| == |functions| && forall k | 0 <= k < |functions| :: functions[k].lines == has[k]
  }

  /** Each function has the lines it `had`, and its pieces after them. */
  ghost predicate Handed(functions: seq<Function>, had: seq<seq<Line>>, pieces: seq<seq<Line>>)
    reads functions`lines
  {
    |had| == |pieces| == |functions|
    && forall k | 0 <= k < |functions| :: functions[k].lines == had[k] + pieces[k]
  }

  /** The first half of an iteration: add a line or warn, and find the next transition, which is zero if
      it is the end of the address space. */
  method Step(functions: seq<Function>, lines: seq<Line>, i: nat, j: nat, current: Address,
              lastLineUsed: int, lastFunctionCited: int, lastLineCited: int,
              ghost fs: seq<Range>, ghost owned: set<Function>, ghost had: seq<seq<Line>>, ghost s: State)
    returns (next: Address, used: int, functionCited: int, lineCited: int, notice: seq<Notice>)
    requires Distinct(functions) && Describes(fs, functions)
    requires AllValid(fs) && AllValid(Spans(lines))
    requires Holds(s, i, j, current, lastLineUsed, lastFunctionCited, lastLineCited)
    requires Active(fs, lines, s)
    requires Here(fs, i, current) && Here(Spans(lines), j, current)
    requires forall k | 0 <= k < |functions| :: functions[k] in owned
    requires Handed(functions, had, s.pieces)
    modifies owned`lines
    ensures var t := Transition(fs, lines, s);
            && current < t.c <= ADDRESS_LIMIT && next == (if t.c == ADDRESS_LIMIT then 0 else t.c)
            && used == t.lineUsed && functionCited == t.functionCited && lineCited == t.lineCited
            && notice == Noticed(fs, lines, s)
    ensures Handed(functions, had, Transition(fs, lines, s).pieces)
  {
    NextIsLater(fs, i, Spans(lines), j, current);
    used, functionCited, lineCited, notice := lastLineUsed, lastFunctionCited, lastLineCited, [];
    if i < |functions| && current >= functions[i].address {
      var f := functions[i];
      if j < |lines| && current >= lines[j].address {
        var functionLeft := Sub(f.size, Sub(current, f.address));
        var lineLeft := Sub(lines[j].size, Sub(current, lines[j].address));
        next := Add(current, Min(functionLeft, lineLeft));
        f.lines := f.lines + [lines[j].(address := current, size := Sub(next, current))];
        used := j;
      } else {
        if functionCited != i {
          notice := [AboutFunction(i)];
          functionCited := i;
        }
        if j < |lines| && Within(f.address, f.size, lines[j].address) {
          next := lines[j].address;
        } else {
          next := Add(f.address, f.size);
        }
      }
    } else if j < |lines| && current >= lines[j].address {
      var l := lines[j];
      if lineCited != j
         && !(i < |functions| && lastLineUsed == j && Sub(functions[i].address, l.address) == l.size)
      {
        notice := [AboutLine(j)];
        lineCited := j;
      }
      if i < |functions| && Within(l.address, l.size, functions[i].address) {
        next := functions[i].address;
      } else {
        next := Add(l.address, l.size);
      }
    } else if i < |functions| && j < |lines| {
      next := Min(functions[i].address, lines[j].address);
    } else if i < |functions| {
      next := functions[i].address;
    } else {
      next := lines[j].address;
    }
  }

  method AdvanceFunctions(functions: seq<Function>, i: nat, next: Address, ghost fs: seq<Range>) returns (i': nat)
    requires i <= |functions| && Describes(fs, functions) && AllValid(fs)
    ensures i <= i' && Here(fs, i', next)
    ensures forall k | i <= k < i' :: fs[k].End() <= next
  {
    i' := i;
    while i' < |functions| && next >= functions[i'].address
          && !Within(functions[i'].address, functions[i'].size, next)
      invariant i <= i' <= |fs| && forall k | i <= k < i' :: fs[k].End() <= next
    {
      WithinIsHas(fs[i'], next);
      i' := i' + 1;
    }
    if i' < |functions| { WithinIsHas(fs[i'], next); }
  }

  method AdvanceLines(lines: seq<Line>, j: nat, next: Address) returns (j': nat)
    requires j <= |lines| && AllValid(Spans(lines))
    ensures j <= j' && Here(Spans(lines), j', next)
    ensures forall k | j <= k < j' :: Spans(lines)[k].End() <= next
  {
    ghost var gs := Spans(lines);
    j' := j;
    while j' < |lines| && next >= lines[j'].address && !Within(lines[j'].address, lines[j'].size, next)
      invariant j <= j' <= |gs| && forall k | j <= k < j' :: gs[k].End() <= next
    {
      WithinIsHas(gs[j'], next);
      j' := j' + 1;
    }
    if j' < |lines| { WithinIsHas(gs[j'], next); }
  }

  /** One iteration of the loop; `stop` says that it ran into the end of the address space. */
  method Iterate(functions: seq<Function>, lines: seq<Line>, i: nat, j: nat, current: Address,
                 lastLineUsed: int, lastFunctionCited: int, lastLineCited: int, notices: seq<Notice>,
                 ghost fs: seq<Range>, ghost owned: set<Function>, ghost had: seq<seq<Line>>, ghost s: State)
    returns (stop: bool, i': nat, j': nat, current': Address, used: int, functionCited: int, lineCited: int,
             notices': seq<Notice>, ghost t: State)
    requires Distinct(functions) && Describes(fs, functions)
    requires AllValid(fs) && AllValid(Spans(lines))
    requires Holds(s, i, j, current, lastLineUsed, lastFunctionCited, lastLineCited) && notices == s.notices
    requires Active(fs, lines, s)
    requires Here(fs, i, current) && Here(Spans(lines), j, current)
    requires forall k | 0 <= k < |functions| :: functions[k] in owned
    requires Handed(functions, had, s.pieces)
    modifies owned`lines
    ensures Handed(functions, had, t.pieces) && notices' == t.notices
    ensures stop ==> t == Transition(fs, lines, s) && t.c == ADDRESS_LIMIT
    ensures !stop ==> Transition(fs, lines, s).c < ADDRESS_LIMIT && Moved(fs, lines, Transition(fs, lines, s), t)
    ensures !stop ==> current' > current && Holds(t, i', j', current', used, functionCited, lineCited)
    ensures !stop ==> i' <= |functions| && j' <= |lines|
  {
    var next, notice;
    next, used, functionCited, lineCited, notice :=
      Step(functions, lines, i, j, current, lastLineUsed, lastFunctionCited, lastLineCited, fs, owned, had, s);
    notices' := notices + notice;
    t := Transition(fs, lines, s);
    stop, i', j', current' := next == 0, i, j, next;
    if !stop {
      i' := AdvanceFunctions(functions, i, next, fs);
      j' := AdvanceLines(lines, j, next);
      t := t.(i := i', j := j');
    }
  }

  /** The beginning of the first line or function, whichever is earlier. */
  method FirstAddress(functions: seq<Function>, lines: seq<Line>, ghost fs: seq<Range>) returns (current: Address)
    requires Describes(fs, functions) && (functions != [] || lines != [])
    ensures IsRun(fs, lines, [Initial(fs, current)])
  {
    if functions != [] && lines != [] {
      current := Min(functions[0].address, lines[0].address);
    } else if lines != [] {
      current := lines[0].address;
    } else {
      current := functions[0].address;
    }
  }

  /** The loop of AssignLinesToFunctions, over vectors already in order. */
  method Sweep(functions: seq<Function>, lines: seq<Line>, ghost fs: seq<Range>, ghost owned: set<Function>,
               ghost had: seq<seq<Line>>)
    returns (notices: seq<Notice>, ghost run: seq<State>, ghost final: State)
    requires Distinct(functions) && Describes(fs, functions)
    requires AllValid(fs) && AllValid(Spans(lines))
    requires functions != [] || lines != []
    requires forall k | 0 <= k < |functions| :: functions[k] in owned
    requires Handed(functions, had, Initial(fs, 0).pieces)
    modifies owned`lines
    ensures IsOver(fs, lines, run, final)
    ensures Handed(functions, had, final.pieces) && notices == final.notices
  {
    // The pointers kept for the warnings: a position in the vector, or -1 for NULL.
    var lastLineUsed, lastFunctionCited, lastLineCited := -1, -1, -1;
    var i: nat, j: nat := 0, 0;
    var current := FirstAddress(functions, lines, fs);
    notices := [];
    ghost var s := Initial(fs, current);
    run := [s];

    while i < |functions| || j < |lines|
      invariant Holds(s, i, j, current, lastLineUsed, lastFunctionCited, lastLineCited) && notices == s.notices
      invariant IsRun(fs, lines, run) && run[|run| - 1] == s
      invariant i <= |functions| && j <= |lines| && Handed(functions, had, s.pieces)
      decreases ADDRESS_LIMIT - current
    {
      // The first invariant of the loop.
      assert Here(fs, s.i, s.c) && Here(Spans(lines), s.j, s.c) by { RunStaysOnTrack(fs, lines, run); }
      var stop;
      ghost var t;
      stop, i, j, current, lastLineUsed, lastFunctionCited, lastLineCited, notices, t :=
        Iterate(functions, lines, i, j, current, lastLineUsed, lastFunctionCited, lastLineCited, notices,
                fs, owned, had, s);
      if stop {
        final := t;
        return;
      }
      RunGoesOn(fs, lines, run, t);
      s := t;
      run := run + [t];
    }
    final := s;
  }

  function LinesOf(functions: seq<Function>): (r: seq<seq<Line>>)
    reads functions`lines
    ensures |r| == |functions| && forall k | 0 <= k < |r| :: r[k] == functions[k].lines
  {
    if functions == [] then []
    else LinesOf(functions[..|functions| - 1]) + [functions[|functions| - 1].lines]
  }

  function AddressesOf(functions: seq<Function>): (r: seq<int>)
    ensures |r| == |functions| && forall k | 0 <= k < |r| :: r[k] == functions[k].address
  {
    if functions == [] then []
    else AddressesOf(functions[..|functions| - 1]) + [functions[|functions| - 1].address]
  }

  lemma PermuteKeepsDisjoint(rs: seq<Range>, order: seq<int>)
    requires IsPermutation(order, |rs|) && PairwiseDisjoint(rs)
    ensures PairwiseDisjoint(Permute(rs, order))
  {
    var s := Permute(rs, order);
    forall p, q | 0 <= p < |s| && 0 <= q < |s| && p != q
      ensures s[p].End() <= s[q].address || s[q].End() <= s[p].address
    {
      assert order[p] != order[q];
    }
  }

  ghost predicate ValidFunctions(functions: seq<Function>)
    reads functions`size
  {
    Distinct(functions) && forall k | 0 <= k < |functions| :: FunctionRange(functions[k]).Valid()
  }

  /** No two functions share a byte. */
  ghost predicate DisjointFunctions(functions: seq<Function>)
    reads functions`size
  {
    forall p, q | 0 <= p < |functions| && 0 <= q < |functions| && p != q ::
      functions[p].End() <= functions[q].address || functions[q].End() <= functions[p].address
  }

  method SortFunctions(functions: seq<Function>)
    returns (sorted: seq<Function>, ghost fs: seq<Range>, ghost had: seq<seq<Line>>)
    requires ValidFunctions(functions)
    ensures Distinct(sorted) && |sorted| == |functions| && forall f :: f in sorted <==> f in functions
    ensures Describes(fs, sorted) && HasLines(sorted, had)
    ensures Sorted(fs) && AllValid(fs)
    ensures DisjointFunctions(functions) ==> Separated(fs)
  {
    var addresses := AddressesOf(functions);
    var order := StableOrder(addresses);
    sorted := Permute(functions, order);
    had := LinesOf(sorted);
    assert Distinct(sorted) && forall f :: f in sorted <==> f in functions by { PermuteKeepsElements(functions, order); }
    fs := SpansAreSorted(functions, FunctionSpans(functions), addresses, order);
  }

  /** The extents of functions in the order in which they are sorted. */
  lemma SpansAreSorted(functions: seq<Function>, spans: seq<Range>, addresses: seq<int>, order: seq<int>)
    returns (fs: seq<Range>)
    requires ValidFunctions(functions) && Describes(spans, functions) && |addresses| == |functions|
    requires forall k | 0 <= k < |functions| :: addresses[k] == functions[k].address
    requires IsPermutation(order, |functions|) && StablySorted(addresses, order)
    ensures Describes(fs, Permute(functions, order)) && Sorted(fs) && AllValid(fs)
    ensures DisjointFunctions(functions) ==> Separated(fs)
  {
    fs := Permute(spans, order);
    PermutedIsSorted(spans, addresses, order);
    if DisjointFunctions(functions) {
      assert PairwiseDisjoint(spans);
      PermuteKeepsDisjoint(spans, order);
      SortedDisjointIsSeparated(fs);
    }
  }

  lemma PermutedIsSorted(rs: seq<Range>, addresses: seq<int>, order: seq<int>)
    requires |addresses| == |rs| && forall k | 0 <= k < |rs| :: addresses[k] == rs[k].address
    requires IsPermutation(order, |rs|) && StablySorted(addresses, order)
    ensures Sorted(Permute(rs, order))
  {
    var s := Permute(rs, order);
    forall p, q | 0 <= p < q < |s| ensures s[p].address <= s[q].address {
      assert addresses[order[p]] <= addresses[order[q]];
    }
  }

  method SortLines(lines: seq<Line>) returns (sorted: seq<Line>)
    ensures multiset(sorted) == multiset(lines)
    ensures Sorted(Spans(sorted))
    ensures AllValid(Spans(lines)) ==> AllValid(Spans(sorted))
    ensures AllValid(Spans(lines)) && PairwiseDisjoint(Spans(lines)) ==> Separated(Spans(sorted))
  {
    var order := StableOrder(seq(|lines|, k requires 0 <= k < |lines| => lines[k].address));
    PermuteKeepsElements(lines, order);
    PermuteKeepsMultiset(lines, order);
    sorted := Permute(lines, order);
    ghost var gs := Spans(lines);
    assert Spans(sorted) == Permute(gs, order);
    if AllValid(gs) && PairwiseDisjoint(gs) {
      PermuteKeepsDisjoint(gs, order);
      SortedDisjointIsSeparated(Permute(gs, order));
    }
  }

  /** What the sweep is for: each function has its intersections with the lines, after the lines it `had`. */
  ghost predicate Apportioned(fs: seq<Range>, had: seq<seq<Line>>, has: seq<seq<Line>>, ls: seq<Line>) {
    |has| == |had| == |fs|
    && forall k | 0 <= k < |fs| :: has[k] == had[k] + Pieces(fs[k].address, fs[k].End(), ls)
  }

  /** What the sweep leaves behind, whatever overlaps what: pieces of lines, each inside its function. */
  ghost predicate Sound(fs: seq<Range>, had: seq<seq<Line>>, has: seq<seq<Line>>, ls: seq<Line>) {
    |has| == |had| == |fs|
    && forall k | 0 <= k < |fs| ::
         had[k] <= has[k] && forall m | |had[k]| <= m < |has[k]| :: CutFrom(has[k][m], fs[k], ls)
  }

  /** No warning is given twice; a function is warned about just if some byte of it has no line, and a line
      just if some byte of it, other than excused padding, has no function. */
  ghost predicate RightlyWarned(functions: seq<Function>, fs: seq<Range>, ls: seq<Line>, w: seq<Warning>) {
    && |fs| == |functions| && Distinct(w)
    && (forall x | x in w :: match x case UncoveredFunction(f) => f in functions case UncoveredLine(l) => l in ls)
    && (forall k | 0 <= k < |fs| :: UncoveredFunction(functions[k]) in w <==> HasUnlinedByte(fs[k], Spans(ls)))
    && (forall k | 0 <= k < |ls| :: UncoveredLine(ls[k]) in w <==> HasStrayByte(RangeOf(ls[k]), fs))
  }

  lemma CutIsSound(fs: seq<Range>, had: seq<seq<Line>>, has: seq<seq<Line>>, ls: seq<Line>, pieces: seq<seq<Line>>)
    requires |has| == |had| == |fs| && AllCut(fs, ls, pieces)
    requires forall k | 0 <= k < |fs| :: has[k] == had[k] + pieces[k]
    ensures Sound(fs, had, has, ls)
  {
    forall k, m | 0 <= k < |fs| && |had[k]| <= m < |has[k]| ensures CutFrom(has[k][m], fs[k], ls) {
      assert has[k][m] == pieces[k][m - |had[k]|];
    }
  }

  lemma NoticeIsReported(functions: seq<Function>, ls: seq<Line>, ns: seq<Notice>, w: seq<Warning>, x: Notice)
    requires Distinct(functions) && Distinct(ls)
    requires AllInBounds(ns, |functions|, |ls|) && InBounds(x, |functions|, |ls|)
    requires |w| == |ns| && forall p | 0 <= p < |w| :: w[p] == Report(functions, ls, ns[p])
    ensures Report(functions, ls, x) in w <==> x in ns
  {
    if x in ns {
      var p :| 0 <= p < |ns| && ns[p] == x;
      assert w[p] == Report(functions, ls, x);
    }
    if Report(functions, ls, x) in w {
      var p :| 0 <= p < |w| && w[p] == Report(functions, ls, x);
      assert InBounds(ns[p], |functions|, |ls|);
    }
  }

  lemma NoticesAreWarnings(functions: seq<Function>, fs: seq<Range>, ls: seq<Line>, final: State, w: seq<Warning>)
    requires Distinct(functions) && |fs| == |functions|
    requires AllValid(Spans(ls)) && Separated(Spans(ls))
    requires Complete(fs, ls, final)
    requires |w| == |final.notices|
    requires forall p | 0 <= p < |w| :: w[p] == Report(functions, ls, final.notices[p])
    ensures RightlyWarned(functions, fs, ls, w)
  {
    var ns := final.notices;
    forall p, q | 0 <= p < q < |ls| ensures ls[p] != ls[q] {
      assert Spans(ls)[p].Valid() && Spans(ls)[p].End() <= Spans(ls)[q].address;
    }
    forall p, q | 0 <= p < q < |w| ensures w[p] != w[q] {
      assert ns[p] != ns[q];
      assert InBounds(ns[p], |fs|, |ls|) && InBounds(ns[q], |fs|, |ls|);
    }
    forall x | x in w
      ensures match x case UncoveredFunction(f) => f in functions case UncoveredLine(l) => l in ls
    {
      var p :| 0 <= p < |w| && w[p] == x;
      assert InBounds(ns[p], |fs|, |ls|);
    }
    forall k | 0 <= k < |fs|
      ensures UncoveredFunction(functions[k]) in w <==> HasUnlinedByte(fs[k], Spans(ls))
    {
      NoticeIsReported(functions, ls, ns, w, AboutFunction(k));
    }
    forall k | 0 <= k < |ls| ensures UncoveredLine(ls[k]) in w <==> HasStrayByte(RangeOf(ls[k]), fs) {
      NoticeIsReported(functions, ls, ns, w, AboutLine(k));
    }
  }

  /** What the sweep owes its caller, with `run` the states its loop went through. Whatever overlaps what,
      the loop is short and never invents an attribution; when nothing overlaps, the lines and the warnings
      are exactly the right ones. */
  ghost predicate Delivered(functions: seq<Function>, fs: seq<Range>, had: seq<seq<Line>>, has: seq<seq<Line>>,
                            ls: seq<Line>, run: seq<State>, w: seq<Warning>)
  {
    && (fs != [] || ls != [] ==> IsRun(fs, ls, run))
    && |run| <= 2 * (|fs| + |ls|)
    && Sound(fs, had, has, ls)
    && (Separated(fs) && Separated(Spans(ls)) ==> Apportioned(fs, had, has, ls) && RightlyWarned(functions, fs, ls, w))
  }

  lemma RunDelivers(functions: seq<Function>, fs: seq<Range>, had: seq<seq<Line>>, has: seq<seq<Line>>,
                    ls: seq<Line>, run: seq<State>, final: State, w: seq<Warning>)
    requires Distinct(functions) && |fs| == |functions| && AllValid(fs) && AllValid(Spans(ls))
    requires Sorted(fs) && Sorted(Spans(ls))
    requires IsOver(fs, ls, run, final)
    requires |final.pieces| == |had| == |has| == |fs|
    requires forall k | 0 <= k < |fs| :: has[k] == had[k] + final.pieces[k]
    requires AllInBounds(final.notices, |functions|, |ls|) && |w| == |final.notices|
    requires forall p | 0 <= p < |w| :: w[p] == Report(functions, ls, final.notices[p])
    ensures Delivered(functions, fs, had, has, ls, run, w)
  {
    assert |run| <= 2 * (|fs| + |ls|) by { RunIsShort(fs, ls, run); }
    assert Sound(fs, had, has, ls) by {
      FinishedRunIsCut(fs, ls, run, final);
      CutIsSound(fs, had, has, ls, final.pieces);
    }
    if Separated(fs) && Separated(Spans(ls)) {
      FinishedRunIsComplete(fs, ls, run, final);
      assert Apportioned(fs, had, has, ls);
      assert RightlyWarned(functions, fs, ls, w) by { NoticesAreWarnings(functions, fs, ls, final, w); }
    }
  }

  /** AssignLinesToFunctions, once both vectors are in order. */
  method AssignSorted(functions: seq<Function>, lines: seq<Line>, ghost fs: seq<Range>, ghost owned: set<Function>,
                      ghost had: seq<seq<Line>>)
    returns (w: seq<Warning>, ghost run: seq<State>, ghost has: seq<seq<Line>>)
    requires Distinct(functions) && Describes(fs, functions) && AllValid(fs) && AllValid(Spans(lines))
    requires Sorted(fs) && Sorted(Spans(lines))
    requires HasLines(functions, had)
    requires forall k | 0 <= k < |functions| :: functions[k] in owned
    modifies owned`lines
    ensures HasLines(functions, has)
    ensures Delivered(functions, fs, had, has, lines, run, w)
  {
    if functions == [] && lines == [] {
      w, run, has := [], [], had;
      assert Delivered(functions, fs, had, has, lines, run, w);
      return;
    }
    var notices;
    ghost var final;
    notices, run, final := Sweep(functions, lines, fs, owned, had);
    has := LinesOf(functions);
    assert forall k | 0 <= k < |fs| :: has[k] == had[k] + final.pieces[k];
    assert AllInBounds(final.notices, |fs|, |lines|) by { FinishedRunInBounds(fs, lines, run, final); }
    w := seq(|notices|, p requires 0 <= p < |notices| => Report(functions, lines, notices[p]));
    RunDelivers(functions, fs, had, has, lines, run, final, w);
  }

  class DwarfCUToModule {
    var functions: seq<Function>
    var lines: seq<Line>

    /** Every function was allocated by itself, and both readers only pass on items that hold at least one
        byte and do not wrap. */
    ghost predicate Valid()
      reads this, functions`size
    {
      ValidFunctions(functions) && AllValid(Spans(lines))
    }

    /** Put both vectors in order by address; `fs` and `had` give the functions' extents and lines. */
    method SortByAddress() returns (ghost fs: seq<Range>, ghost had: seq<seq<Line>>)
      requires Valid()
      modifies this
      ensures |functions| == |old(functions)| && forall f :: f in functions <==> f in old(functions)
      ensures multiset(lines) == multiset(old(lines))
      ensures Distinct(functions) && Describes(fs, functions) && HasLines(functions, had)
      ensures |had| == |functions|
              && forall k | 0 <= k < |functions| :: var f := functions[k]; f in old(functions) && had[k] == old(f.lines)
      ensures AllValid(fs) && Sorted(fs) && AllValid(Spans(lines)) && Sorted(Spans(lines))
      ensures old(DisjointFunctions(functions)) ==> Separated(fs)
      ensures old(PairwiseDisjoint(Spans(lines))) ==> Separated(Spans(lines))
    {
      var sortedFunctions, sortedLines;
      sortedFunctions, fs, had := SortFunctions(functions);
      sortedLines := SortLines(lines);
      functions, lines := sortedFunctions, sortedLines;
      forall k | 0 <= k < |functions|
        ensures var f := functions[k]; f in old(functions) && had[k] == old(f.lines)
      {
        assert functions[k] in sortedFunctions;
      }
    }

    /** `reported` is what the WarningReporter is told, and `run` the sequence of states the loop goes
        through; `fs`, `had` and `has` give the extents of the functions, in the order they are left in, and
        their lines before and after. */
    method AssignLinesToFunctions()
      returns (reported: seq<Warning>,
               ghost fs: seq<Range>, ghost had: seq<seq<Line>>, ghost has: seq<seq<Line>>, ghost run: seq<State>)
      requires Valid()
      modifies this, functions`lines
      ensures |functions| == |old(functions)| && forall f :: f in functions <==> f in old(functions)
      ensures multiset(lines) == multiset(old(lines))
      ensures Describes(fs, functions) && Sorted(fs) && Sorted(Spans(lines))
      ensures |had| == |functions|
              && forall k | 0 <= k < |functions| :: var f := functions[k]; f in old(functions) && had[k] == old(f.lines)
      ensures HasLines(functions, has)
      ensures old(DisjointFunctions(functions)) ==> Separated(fs)
      ensures old(PairwiseDisjoint(Spans(lines))) ==> Separated(Spans(lines))
      ensures Delivered(functions, fs, had, has, lines, run, reported)
    {
      ghost var owned := set f | f in functions;
      fs, had := SortByAddress();
      reported, run, has := AssignSorted(functions, lines, fs, owned, had);
    }
  }
}
