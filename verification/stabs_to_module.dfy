/** StabsToModule: a handler that keeps the functions it hears of, and works out their sizes in the end. */
module StabsToModules {
  import opened Addresses
  import opened ByteCursors
  import opened Bytes
  import opened ModuleFunctions
  import opened Options
  import opened Sorting
  import opened StabsEntries
  import opened StabsHeard
  import opened StabsTrace
  import opened Symbols

  const FALLBACK_SIZE: Address := 0x10000000

  // ---- Sizes

  /** std::upper_bound: the position of the first element that is greater than `a`. */
  function UpperBound(bs: seq<Address>, a: Address): (at: nat)
    ensures at <= |bs| && (forall i | 0 <= i < at :: bs[i] <= a) && (at < |bs| ==> bs[at] > a)
  {
    if bs == [] || bs[0] > a then 0 else 1 + UpperBound(bs[1..], a)
  }

  /** The first boundary behind `a`, among boundaries in any order. */
  ghost predicate IsNext(bs: seq<Address>, a: Address, b: int) {
    b in bs && b > a && forall x | x in bs && x > a :: b <= x
  }

  ghost predicate IsLast(bs: seq<Address>, a: Address) {
    forall x | x in bs :: x <= a
  }

  /** A function ends at the first boundary behind its start, if there is one. */
  ghost predicate HasItsSize(bs: seq<Address>, a: Address, size: Address) {
    if IsLast(bs, a) then size == FALLBACK_SIZE else IsNext(bs, a, a + size)
  }

  lemma UpperBoundIsNext(bs: seq<Address>, sorted: seq<Address>, a: Address)
    requires forall x :: x in sorted <==> x in bs
    requires forall p, q | 0 <= p < q < |sorted| :: sorted[p] <= sorted[q]
    ensures var at := UpperBound(sorted, a);
            if at < |sorted| then IsNext(bs, a, sorted[at]) else IsLast(bs, a)
  {
    var at := UpperBound(sorted, a);
    if at < |sorted| {
      assert sorted[at] in sorted;
      forall x | x in bs && x > a ensures sorted[at] <= x {
        var p :| 0 <= p < |sorted| && sorted[p] == x;
      }
    } else {
      forall x | x in bs ensures x <= a {
        var p :| 0 <= p < |sorted| && sorted[p] == x;
      }
    }
  }

  /** Sizes are positive, and no boundary lies strictly inside a function. */
  lemma NoBoundaryInside(bs: seq<Address>, a: Address, size: Address)
    requires HasItsSize(bs, a, size)
    ensures size > 0 && forall x | x in bs :: !(a < x < a + size)
  {
  }

  /** Functions at different addresses do not overlap. */
  lemma FunctionsAreApart(bs: seq<Address>, a: Address, size: Address, a': Address, size': Address)
    requires a in bs && a' in bs && HasItsSize(bs, a, size) && HasItsSize(bs, a', size')
    ensures a < a' ==> a + size <= a'
    ensures a' < a ==> a' + size' <= a
  {
  }

  /** Only functions at the one highest address go without a known end. */
  lemma OnlyTheHighestFallsBack(bs: seq<Address>, a: Address, a': Address)
    requires a in bs && a' in bs
    ensures IsLast(bs, a) && IsLast(bs, a') ==> a == a'
    ensures IsLast(bs, a) || exists b :: IsNext(bs, a, b)
  {
    if !IsLast(bs, a) {
      var b := LeastAbove(bs, a);
      assert IsNext(bs, a, b);
    }
  }

  lemma {:induction false} LeastAbove(bs: seq<Address>, a: Address) returns (b: Address)
    requires !IsLast(bs, a)
    ensures IsNext(bs, a, b)
    decreases |bs|
  {
    assert bs != [];
    var n := |bs| - 1;
    if IsLast(bs[..n], a) {
      b := bs[n];
      assert forall x | x in bs :: x in bs[..n] || x == bs[n];
    } else {
      var c := LeastAbove(bs[..n], a);
      b := if bs[n] > a && bs[n] < c then bs[n] else c;
      assert forall x | x in bs :: x in bs[..n] || x == bs[n];
    }
  }

  // ---- Lines

  /** Each line reaches to the next one, and the last one to the end of the function. */
  function Sized(lines: seq<Line>, end: Address): (r: seq<Line>)
    ensures |r| == |lines|
    ensures forall k | 0 <= k < |r| ::
              r[k] == lines[k].(size := Sub(if k + 1 < |lines| then lines[k + 1].address else end, lines[k].address))
  {
    seq(|lines|, k requires 0 <= k < |lines| =>
      lines[k].(size := Sub(if k + 1 < |lines| then lines[k + 1].address else end, lines[k].address)))
  }

  /** The sum of the sizes, which wraps like the sizes do. */
  function WrappedSize(lines: seq<Line>): Address {
    if lines == [] then 0 else Add(WrappedSize(lines[..|lines| - 1]), lines[|lines| - 1].size)
  }

  /** The line sizes add up to what lies between the first line and the end. */
  lemma {:induction false} SizesTelescope(lines: seq<Line>, end: Address)
    requires lines != []
    ensures WrappedSize(Sized(lines, end)) == Sub(end, lines[0].address)
    decreases |lines|
  {
    var n := |lines| - 1;
    var sized := Sized(lines, end);
    if n == 0 {
      assert sized[..0] == [];
    } else {
      SizesTelescope(lines[..n], lines[n].address);
      assert sized[..n] == Sized(lines[..n], lines[n].address);
    }
  }

  /** When no line starts behind the end, a line reaches just to the next one, or to the end. */
  lemma SizedLineEnds(lines: seq<Line>, end: Address, i: nat)
    requires i < |lines| && lines[i].address <= end
    requires i + 1 < |lines| ==> lines[i].address <= lines[i + 1].address
    ensures Sized(lines, end)[i].End() == if i + 1 < |lines| then lines[i + 1].address else end
  {
    assert Sized(lines, end)[i].address == lines[i].address;
  }

  function LineAddresses(lines: seq<Line>): (r: seq<int>)
    ensures |r| == |lines| && forall k | 0 <= k < |r| :: r[k] == lines[k].address
  {
    seq(|lines|, k requires 0 <= k < |lines| => lines[k].address)
  }

  /** `after` has the lines of `before`, sorted, with those of one address in their old order, and sized. */
  ghost predicate LinesSized(before: seq<Line>, after: seq<Line>, end: Address) {
    exists order :: IsPermutation(order, |before|) && StablySorted(LineAddresses(before), order)
      && after == Sized(Permute(before, order), end)
  }

  method SizeLines(lines: seq<Line>, end: Address) returns (sized: seq<Line>)
    ensures LinesSized(lines, sized, end)
  {
    var order := StableOrder(LineAddresses(lines));
    sized := Permute(lines, order);
    sized := SizeInOrder(sized, end);
  }

  method SizeInOrder(lines: seq<Line>, end: Address) returns (sized: seq<Line>)
    ensures sized == Sized(lines, end)
  {
    sized := lines;
    if sized == [] { return; }
    var last := |sized| - 1;
    for i := 0 to last
      invariant |sized| == |lines|
      invariant forall k | 0 <= k < i :: sized[k] == Sized(lines, end)[k]
      invariant forall k | i <= k < |lines| :: sized[k] == lines[k]
    {
      sized := sized[i := sized[i].(size := Sub(sized[i + 1].address, sized[i].address))];
    }
    sized := sized[last := sized[last].(size := Sub(end, sized[last].address))];
  }

  /** What Finalize makes of a function at `address` that had the lines `before`. */
  ghost predicate IsFinal(bs: seq<Address>, address: Address, before: seq<Line>, size: Address, lines: seq<Line>) {
    HasItsSize(bs, address, size) && LinesSized(before, lines, Add(address, size))
  }

  /** The body of the loop in Finalize. */
  method FinalizeFunction(f: Function, sorted: seq<Address>, ghost bs: seq<Address>)
    requires forall x :: x in sorted <==> x in bs
    requires forall p, q | 0 <= p < q < |sorted| :: sorted[p] <= sorted[q]
    modifies f`size, f`lines
    ensures IsFinal(bs, f.address, old(f.lines), f.size, f.lines)
  {
    UpperBoundIsNext(bs, sorted, f.address);
    var boundary := UpperBound(sorted, f.address);
    f.size := if boundary < |sorted| then sorted[boundary] - f.address else FALLBACK_SIZE;
    f.lines := SizeLines(f.lines, Add(f.address, f.size));
  }

  function FunctionAddresses(functions: seq<Function>): (r: seq<int>)
    ensures |r| == |functions| && forall k | 0 <= k < |r| :: r[k] == functions[k].address
  {
    if functions == [] then []
    else FunctionAddresses(functions[..|functions| - 1]) + [functions[|functions| - 1].address]
  }

  method SortBoundaries(boundaries: seq<Address>) returns (sorted: seq<Address>)
    ensures forall x :: x in sorted <==> x in boundaries
    ensures forall p, q | 0 <= p < q < |sorted| :: sorted[p] <= sorted[q]
  {
    var order := StableOrder(boundaries);
    PermuteKeepsElements(boundaries, order);
    sorted := Permute(boundaries, order);
    forall p, q | 0 <= p < q < |sorted| ensures sorted[p] <= sorted[q] {
      assert boundaries[order[p]] <= boundaries[order[q]];
    }
  }

  ghost predicate InAddressOrder(before: seq<Function>, after: seq<Function>, addresses: seq<int>)
    requires |addresses| == |before|
  {
    exists order :: IsPermutation(order, |before|) && StablySorted(addresses, order) && after == Permute(before, order)
  }

  // ---- The handler

  function KeptOf(f: Function): Kept
    reads f
  {
    Kept(f.name, f.address, f.lines)
  }

  function AllKept(functions: seq<Function>): (kept: seq<Kept>)
    reads functions
    ensures |kept| == |functions| && forall k | 0 <= k < |kept| :: kept[k] == KeptOf(functions[k])
  {
    if functions == [] then [] else AllKept(functions[..|functions| - 1]) + [KeptOf(functions[|functions| - 1])]
  }

  class StabsToModule {
    const names: Names
    /** The module that gets the functions in the end. */
    const target: Module
    var functions: seq<Function>
    var boundaries: seq<Address>
    var inCompilationUnit: bool
    var compUnitBaseAddress: Address
    var currentFunction: Function?
    var currentSourceFile: Option<FileId>
    var currentSourceFileName: Option<Name>

    constructor (names: Names, target: Module)
      ensures At(Outside) && Noted() == BLANK && functions == [] && this.names == names && this.target == target
    {
      this.names, this.target := names, target;
      functions, boundaries := [], [];
      inCompilationUnit, compUnitBaseAddress, currentFunction := false, 0, null;
      currentSourceFile, currentSourceFileName := None, None;
    }

    /** What the handler's own assertions ask for: it knows where in the order of events it is. */
    ghost predicate At(place: Place)
      reads this, functions, currentFunction
    {
      && inCompilationUnit == (place != Outside)
      && (currentFunction != null <==> place == InFunction)
      && (inCompilationUnit ==> currentSourceFile.Some?)
      && (currentSourceFileName.Some? ==> currentSourceFile == Some(names.findFile(currentSourceFileName.value)))
      && Bounded()
    }

    /** Every function's address is a boundary, and each function is kept once. */
    ghost predicate Bounded()
      reads this, functions, currentFunction
    {
      && (forall f | f in functions :: f.address in boundaries && f != currentFunction)
      && (forall p, q | 0 <= p < q < |functions| :: functions[p] != functions[q])
      && (currentFunction != null ==> currentFunction.address in boundaries)
    }

    ghost function Noted(): Notes
      reads this, functions, currentFunction
    {
      Notes(AllKept(functions), if currentFunction == null then None else Some(KeptOf(currentFunction)),
            compUnitBaseAddress, boundaries)
    }

    method StartCompilationUnit(name: Name, address: Address, directory: Option<Name>)
      requires At(Outside)
      modifies this
      ensures At(InUnit) && Noted() == Note(old(Noted()), Event.StartCompilationUnit(name, address, directory), names)
      ensures functions == old(functions)
    {
      inCompilationUnit := true;
      currentSourceFileName := Some(name);
      currentSourceFile := Some(names.findFile(name));
      compUnitBaseAddress := address;
      boundaries := boundaries + [address];
    }

    method EndCompilationUnit(address: Address)
      requires At(InUnit)
      modifies this
      ensures At(Outside) && Noted() == Note(old(Noted()), Event.EndCompilationUnit(address), names)
      ensures functions == old(functions)
    {
      inCompilationUnit := false;
      compUnitBaseAddress := 0;
      currentSourceFile, currentSourceFileName := None, None;
      if address != 0 { boundaries := boundaries + [address]; }
    }

    method StartFunction(symbol: seq<Byte>, address: Address)
      requires At(InUnit)
      modifies this
      ensures At(InFunction) && Noted() == Note(old(Noted()), Event.StartFunction(symbol, address), names)
      ensures fresh(currentFunction) && functions == old(functions)
    {
      currentFunction := new Function(names.demangle(symbol), address, 0);
      boundaries := boundaries + [address];
    }

    /** A function below the start of its unit is dropped. */
    method EndFunction(address: Address)
      requires At(InFunction)
      modifies this
      ensures At(InUnit) && Noted() == Note(old(Noted()), Event.EndFunction(address), names)
      ensures functions == old(functions) || functions == old(functions) + [old(currentFunction)]
    {
      if currentFunction.address >= compUnitBaseAddress {
        functions := functions + [currentFunction];
        assert functions[..|functions| - 1] == old(functions);
      }
      currentFunction := null;
      if address != 0 { boundaries := boundaries + [address]; }
    }

    /** The line is filed under its own name, whether or not that is the name of the line before. */
    method AddLine(address: Address, name: Name, number: nat)
      requires At(InFunction)
      modifies this, currentFunction
      ensures At(InFunction) && Noted() == Note(old(Noted()), Event.Line(address, name, number), names)
      ensures currentFunction == old(currentFunction) && functions == old(functions)
    {
      if Some(name) != currentSourceFileName {
        currentSourceFile := Some(names.findFile(name));
        currentSourceFileName := Some(name);
      }
      var line := Symbols.Line(address, 0, currentSourceFile.value, number);
      currentFunction.lines := currentFunction.lines + [line];
    }

    // ---- Hearing a whole section

    /** One call of the reader. */
    method Hear(e: Event, ghost at: Place)
      requires At(at) && Follow(at, e).Some? && InRange(e)
      modifies this, currentFunction
      ensures At(Follow(at, e).value) && Noted() == Note(old(Noted()), e, names)
      ensures currentFunction == old(currentFunction) || currentFunction == null || fresh(currentFunction)
      ensures functions == old(functions) || (currentFunction == null && functions == old(functions) + [old(currentFunction)])
    {
      match e
      case StartCompilationUnit(name, address, directory) => StartCompilationUnit(name, address, directory);
      case EndCompilationUnit(address) => EndCompilationUnit(address);
      case StartFunction(symbol, address) => StartFunction(symbol, address);
      case EndFunction(address) => EndFunction(address);
      case Line(address, name, number) => AddLine(address, name, number);
      case Warning(_) =>
    }

    /** Events in order never break an assertion of the handler, and it notes down what they say. */
    method HearAll(events: seq<Event>)
      requires At(Outside) && functions == [] && Follows(Outside, events).Some? && AllInRange(events)
      modifies this
      ensures At(Follows(Outside, events).value) && Noted() == NotesFrom(old(Noted()), events, names)
      ensures forall f | f in functions :: fresh(f)
    {
      assert events[..0] == [];
      for k := 0 to |events|
        invariant Follows(Outside, events[..k]).Some? && At(Follows(Outside, events[..k]).value)
        invariant Noted() == NotesFrom(old(Noted()), events[..k], names)
        invariant forall f | f in functions :: fresh(f)
        invariant currentFunction == null || fresh(currentFunction)
      {
        FollowsPrefix(Outside, events, k + 1);
        OneEventMore(events[..k + 1]);
        assert events[..k + 1][..k] == events[..k];
        Hear(events[k], Follows(Outside, events[..k]).value);
      }
      assert events[..|events|] == events;
    }

    // ---- Finalize

    /** Sort and size the functions, and hand them over. `sorted` is the order in which they are; without names for all of
        them the module's assertion stops the program. */
    method Finalize() returns (ok: bool, ghost sorted: seq<Function>)
      requires At(Outside)
      modifies this, target, functions`size, functions`lines
      ensures InAddressOrder(old(functions), sorted, FunctionAddresses(old(functions)))
      ensures forall f | f in old(functions) :: IsFinal(old(boundaries), f.address, old(f.lines), f.size, f.lines)
      ensures ok <==> forall f | f in sorted :: f.name != ""
      ensures ok ==> functions == [] && target.functions == EnterAll(old(target.functions), KeysOf(sorted), sorted)
                     && target.deleted == old(target.deleted) + Rejected(old(target.functions), KeysOf(sorted), sorted)
    {
      var sortedBoundaries := SortBoundaries(boundaries);
      var order := SortFunctions(functions);
      sorted := order;
      FinalizeAll(order, sortedBoundaries, boundaries);
      boundaries := sortedBoundaries;
      ok := target.AddFunctions(order);
      if ok { functions := []; }
    }
  }

  method SortFunctions(functions: seq<Function>) returns (sorted: seq<Function>)
    requires forall p, q | 0 <= p < q < |functions| :: functions[p] != functions[q]
    ensures InAddressOrder(functions, sorted, FunctionAddresses(functions))
    ensures forall f :: f in sorted <==> f in functions
    ensures forall p, q | 0 <= p < q < |sorted| :: sorted[p] != sorted[q]
  {
    var order := StableOrder(FunctionAddresses(functions));
    sorted := Permute(functions, order);
    PermuteKeepsElements(functions, order);
  }

  /** The loop in Finalize. */
  method FinalizeAll(sorted: seq<Function>, sortedBoundaries: seq<Address>, ghost bs: seq<Address>)
    requires forall p, q | 0 <= p < q < |sorted| :: sorted[p] != sorted[q]
    requires forall x :: x in sortedBoundaries <==> x in bs
    requires forall p, q | 0 <= p < q < |sortedBoundaries| :: sortedBoundaries[p] <= sortedBoundaries[q]
    modifies sorted`size, sorted`lines
    ensures forall f | f in sorted :: IsFinal(bs, f.address, old(f.lines), f.size, f.lines)
  {
    for k := 0 to |sorted|
      invariant forall j | 0 <= j < k :: IsFinal(bs, sorted[j].address, old(sorted[j].lines), sorted[j].size, sorted[j].lines)
      invariant forall j | k <= j < |sorted| :: sorted[j].lines == old(sorted[j].lines)
    {
      FinalizeFunction(sorted[k], sortedBoundaries, bs);
    }
  }

  // ---- From events to the functions of a module

  /** The functions noted, by address, each with its size and its lines with theirs. */
  ghost predicate AreFinal(added: seq<Function>, n: Notes, order: seq<int>)
    reads added
  {
    && IsPermutation(order, |n.functions|) && |added| == |n.functions|
    && (forall p | 0 <= p < |added| :: IsFinalOf(added[p], n.functions[order[p]], n.boundaries))
    && forall p, q | 0 <= p < q < |added| :: added[p].address <= added[q].address
  }

  ghost predicate IsFinalOf(f: Function, k: Kept, bs: seq<Address>)
    reads f
  {
    f.name == k.name && f.address == k.address && k.address in bs && IsFinal(bs, k.address, k.lines, f.size, f.lines)
  }

  /** Of positive size, with no boundary inside, and with line sizes that add up to what lies behind the first line. */
  ghost predicate IsWhole(f: Function, bs: seq<Address>)
    reads f
  {
    && f.size > 0 && (forall x | x in bs :: !(f.address < x < f.End()))
    && (f.lines != [] ==> WrappedSize(f.lines) == Sub(Add(f.address, f.size), f.lines[0].address))
  }

  lemma FinalIsWhole(f: Function, k: Kept, bs: seq<Address>)
    requires IsFinalOf(f, k, bs)
    ensures IsWhole(f, bs)
  {
    NoBoundaryInside(bs, f.address, f.size);
    if f.lines != [] { LinesTelescope(k.lines, f.lines, Add(f.address, f.size)); }
  }

  lemma FinalAreApart(f: Function, k: Kept, g: Function, l: Kept, bs: seq<Address>)
    requires IsFinalOf(f, k, bs) && IsFinalOf(g, l, bs)
    ensures f.address < g.address ==> f.End() <= g.address
  {
    FunctionsAreApart(bs, f.address, f.size, g.address, g.size);
  }

  /** All functions are whole, and those at different addresses do not overlap. */
  lemma FinalFunctions(added: seq<Function>, n: Notes, order: seq<int>)
    requires AreFinal(added, n, order)
    ensures forall p | 0 <= p < |added| :: IsWhole(added[p], n.boundaries)
    ensures forall p, q | 0 <= p < |added| && 0 <= q < |added| && added[p].address < added[q].address ::
              added[p].End() <= added[q].address
  {
    forall p | 0 <= p < |added| ensures IsWhole(added[p], n.boundaries) {
      FinalIsWhole(added[p], n.functions[order[p]], n.boundaries);
    }
    forall p, q | 0 <= p < |added| && 0 <= q < |added| && added[p].address < added[q].address
      ensures added[p].End() <= added[q].address
    {
      FinalAreApart(added[p], n.functions[order[p]], added[q], n.functions[order[q]], n.boundaries);
    }
  }

  lemma LinesTelescope(before: seq<Line>, after: seq<Line>, end: Address)
    requires LinesSized(before, after, end) && after != []
    ensures WrappedSize(after) == Sub(end, after[0].address)
  {
    var order :| IsPermutation(order, |before|) && after == Sized(Permute(before, order), end);
    SizesTelescope(Permute(before, order), end);
  }

  lemma AllAreFinal(added: seq<Function>, functions: seq<Function>, n: Notes) returns (order: seq<int>)
    requires |functions| == |n.functions| && InAddressOrder(functions, added, FunctionAddresses(functions))
    requires forall k | 0 <= k < |functions| :: IsFinalOf(functions[k], n.functions[k], n.boundaries)
    ensures AreFinal(added, n, order)
  {
    order :| IsPermutation(order, |functions|) && StablySorted(FunctionAddresses(functions), order)
             && added == Permute(functions, order);
  }

  /** Hearing all that a section tells, and finalizing: all the functions told are sized and sorted, and the first of each
      address and name is in the module. */
  method AddSection(m: StabsToModule, events: seq<Event>) returns (ok: bool, ghost sorted: seq<Function>, ghost order: seq<int>)
    requires m.At(Outside) && m.Noted() == BLANK && m.functions == []
    requires Follows(Outside, events) == Some(Outside) && AllInRange(events)
    modifies m, m.target
    ensures AreFinal(sorted, NotesFrom(BLANK, events, m.names), order)
    ensures ok <==> forall f | f in sorted :: f.name != ""
    ensures ok ==> m.target.functions == EnterAll(old(m.target.functions), KeysOf(sorted), sorted)
  {
    m.HearAll(events);
    AllFresh(m.functions);
    ok, sorted, order := FinalizeNoted(m, m.Noted());
  }

  twostate lemma AllFresh(new functions: seq<Function>)
    requires forall f | f in functions :: fresh(f)
    ensures forall k | 0 <= k < |functions| :: fresh(functions[k])
  {
    assert forall k | 0 <= k < |functions| :: functions[k] in functions;
  }

  method FinalizeNoted(m: StabsToModule, ghost n: Notes) returns (ok: bool, ghost sorted: seq<Function>, ghost order: seq<int>)
    requires m.At(Outside) && m.Noted() == n
    modifies m, m.target, m.functions`size, m.functions`lines
    ensures AreFinal(sorted, n, order)
    ensures ok <==> forall f | f in sorted :: f.name != ""
    ensures ok ==> m.target.functions == EnterAll(old(m.target.functions), KeysOf(sorted), sorted)
  {
    ghost var functions := m.functions;
    assert |n.functions| == |functions| && forall k | 0 <= k < |functions| ::
             n.functions[k] == Kept(functions[k].name, functions[k].address, functions[k].lines)
             && functions[k].address in n.boundaries;
    ok, sorted := m.Finalize();
    order := AllAreFinal(sorted, functions, n);
  }

  // ---- What the reader tells is in range

  ghost predicate StateInRange(s: State) {
    && (s.mode.Function? ==> s.mode.start < ADDRESS_LIMIT)
    && forall k | 0 <= k < |s.queued| :: s.queued[k].address < ADDRESS_LIMIT
  }

  lemma {:induction false} LinesInRange(queued: seq<Queued>)
    requires forall k | 0 <= k < |queued| :: queued[k].address < ADDRESS_LIMIT
    ensures AllInRange(LinesOf(queued))
  {
    if queued != [] { LinesInRange(queued[..|queued| - 1]); }
  }

  lemma UnitInRange(section: Section, s: State, e: Entry, i: nat)
    requires e.value < ADDRESS_LIMIT && StateInRange(s)
    ensures StateInRange(StepUnit(section, s, e, i).0) && AllInRange(StepUnit(section, s, e, i).1)
  {
    LinesInRange(s.queued);
  }

  lemma StepInRange(section: Section, s: State, e: Entry, i: nat)
    requires e.value < ADDRESS_LIMIT && StateInRange(s)
    ensures StateInRange(Step(section, s, e, i).0) && AllInRange(Step(section, s, e, i).1)
  {
    if s.mode == Unit { UnitInRange(section, s, e, i); }
    if s.mode.Function? { UnitInRange(section, s.(mode := Unit), e, i); }
  }

  lemma {:induction false} RestInRange(section: Section, s: State, entries: seq<Entry>, i: nat)
    requires i <= |entries| && StateInRange(s) && forall k | 0 <= k < |entries| :: entries[k].value < ADDRESS_LIMIT
    ensures AllInRange(Rest(section, s, entries, i))
    decreases |entries| - i
  {
    if i < |entries| {
      StepInRange(section, s, entries[i], i);
      RestInRange(section, Step(section, s, entries[i], i).0, entries, i + 1);
    }
  }

  lemma {:induction false} EntryValuesFit(stab: seq<Byte>, bigEndian: bool, valueSize: nat)
    requires valueSize in {4, 8}
    ensures forall k | 0 <= k < |Entries(stab, bigEndian, valueSize)| ::
              Entries(stab, bigEndian, valueSize)[k].value < ADDRESS_LIMIT
    decreases |stab|
  {
    var width := 8 + valueSize;
    if |stab| >= width {
      Limits();
      NumberInFits(stab[..width][8..], bigEndian);
      EntryValuesFit(stab[width..], bigEndian, valueSize);
    }
  }

  /** Whatever the bytes of a section, what the reader tells of it can be heard from start to end. */
  lemma SectionCanBeHeard(section: Section, stab: seq<Byte>, bigEndian: bool, valueSize: nat)
    requires valueSize in {4, 8}
    ensures var events := Trace(section, Entries(stab, bigEndian, valueSize));
            Follows(Outside, events) == Some(Outside) && AllInRange(events)
  {
    var entries := Entries(stab, bigEndian, valueSize);
    TraceIsInOrder(section, entries);
    EntryValuesFit(stab, bigEndian, valueSize);
    RestInRange(section, START, entries, 0);
  }
}
