/** What a handler that keeps every function it hears of has noted down after some events; and which functions, with
    which lines, those are. */
module StabsHeard {
  import opened Addresses
  import opened Bytes
  import opened Options
  import opened StabsTrace
  import Symbols

  /** A function as noted: its lines come without sizes, in the order they were told. */
  datatype Kept = Kept(name: string, address: Address, lines: seq<Symbols.Line>)

  /** `base` is where the unit starts, `current` the function one is in. */
  datatype Notes = Notes(functions: seq<Kept>, current: Option<Kept>, base: Address, boundaries: seq<Address>)

  /** The module's files by name, and what symbols stand for. */
  datatype Names = Names(findFile: Name -> Symbols.FileId, demangle: seq<Byte> -> string)

  ghost predicate InRange(e: Event) {
    match e
    case StartCompilationUnit(_, address, _) => address < ADDRESS_LIMIT
    case EndCompilationUnit(address) => address < ADDRESS_LIMIT
    case StartFunction(_, address) => address < ADDRESS_LIMIT
    case EndFunction(address) => address < ADDRESS_LIMIT
    case Line(address, _, _) => address < ADDRESS_LIMIT
    case Warning(_) => true
  }

  ghost predicate AllInRange(events: seq<Event>) {
    forall k | 0 <= k < |events| :: InRange(events[k])
  }

  /** An ending address of zero is not known. */
  function IfKnown(address: Address): seq<Address> {
    if address == 0 then [] else [address]
  }

  function LineOf(e: Event, names: Names): Symbols.Line
    requires e.Line? && InRange(e)
  {
    Symbols.Line(e.address, 0, names.findFile(e.name), e.number)
  }

  function Note(n: Notes, e: Event, names: Names): Notes
    requires InRange(e)
  {
    match e
    case StartCompilationUnit(_, address, _) => n.(base := address, boundaries := n.boundaries + [address])
    case EndCompilationUnit(address) => n.(base := 0, boundaries := n.boundaries + IfKnown(address))
    case StartFunction(symbol, address) =>
      n.(current := Some(Kept(names.demangle(symbol), address, [])), boundaries := n.boundaries + [address])
    case EndFunction(address) =>
      n.(functions := n.functions + (if n.current.Some? && n.current.value.address >= n.base then [n.current.value] else []),
         current := None, boundaries := n.boundaries + IfKnown(address))
    case Line(_, _, _) =>
      if n.current.None? then n
      else n.(current := Some(n.current.value.(lines := n.current.value.lines + [LineOf(e, names)])))
    case Warning(_) => n
  }

  function NotesFrom(start: Notes, events: seq<Event>, names: Names): Notes
    requires AllInRange(events)
  {
    if events == [] then start
    else Note(NotesFrom(start, events[..|events| - 1], names), events[|events| - 1], names)
  }

  const BLANK := Notes([], None, 0, [])

  // ---- Which boundaries

  /** An event that gives an address at which something starts or is known to end. */
  predicate Marks(e: Event, x: int) {
    match e
    case StartCompilationUnit(_, address, _) => x == address
    case StartFunction(_, address) => x == address
    case EndCompilationUnit(address) => x == address != 0
    case EndFunction(address) => x == address != 0
    case Line(_, _, _) => false
    case Warning(_) => false
  }

  lemma {:induction false} BoundariesAreMarks(events: seq<Event>, names: Names, x: Address)
    requires AllInRange(events)
    ensures x in NotesFrom(BLANK, events, names).boundaries <==> exists k :: 0 <= k < |events| && Marks(events[k], x)
  {
    if events != [] {
      var n := |events| - 1;
      BoundariesAreMarks(events[..n], names, x);
      assert forall k | 0 <= k < n :: events[..n][k] == events[k];
      if x in NotesFrom(BLANK, events, names).boundaries && x !in NotesFrom(BLANK, events[..n], names).boundaries {
        assert Marks(events[n], x);
      }
    }
  }

  // ---- Which functions

  predicate IsUnitEvent(e: Event) { e.StartCompilationUnit? || e.EndCompilationUnit? }

  predicate IsFunctionEvent(e: Event) { e.StartFunction? || e.EndFunction? }

  /** Event `u` starts a unit that has not ended by event `i`. */
  ghost predicate InUnitFrom(events: seq<Event>, u: int, i: int) {
    0 <= u < i <= |events| && events[u].StartCompilationUnit? && forall k | u < k < i :: !IsUnitEvent(events[k])
  }

  /** Event `i` starts a function that has not ended by event `j`. */
  ghost predicate InFunctionFrom(events: seq<Event>, i: int, j: int) {
    0 <= i < j <= |events| && events[i].StartFunction? && forall k | i < k < j :: !IsFunctionEvent(events[k])
  }

  /** The lines told by events `i` up to `j`. */
  function LinesIn(events: seq<Event>, i: nat, j: nat, names: Names): seq<Symbols.Line>
    requires i <= j <= |events| && AllInRange(events)
    decreases j
  {
    if i == j then []
    else if events[j - 1].Line? then LinesIn(events, i, j - 1, names) + [LineOf(events[j - 1], names)]
    else LinesIn(events, i, j - 1, names)
  }

  ghost function FunctionIn(events: seq<Event>, i: nat, j: nat, names: Names): Kept
    requires AllInRange(events) && InFunctionFrom(events, i, j)
  {
    Kept(names.demangle(events[i].symbol), events[i].address, LinesIn(events, i + 1, j, names))
  }

  lemma {:induction false} LinesInPrefix(events: seq<Event>, n: nat, i: nat, j: nat, names: Names)
    requires i <= j <= n <= |events| && AllInRange(events)
    ensures LinesIn(events[..n], i, j, names) == LinesIn(events, i, j, names)
    decreases j
  {
    if i < j { LinesInPrefix(events, n, i, j - 1, names); }
  }

  lemma FunctionInPrefix(events: seq<Event>, n: nat, i: nat, j: nat, names: Names)
    requires n <= |events| && AllInRange(events) && InFunctionFrom(events[..n], i, j)
    ensures InFunctionFrom(events, i, j) && FunctionIn(events[..n], i, j, names) == FunctionIn(events, i, j, names)
  {
    assert forall k | 0 <= k < n :: events[..n][k] == events[k];
    LinesInPrefix(events, n, i + 1, j, names);
  }

  /** The function one is in and the start of the unit one is in, after events in order. */
  ghost predicate KnowsWhere(events: seq<Event>, names: Names, u: int, i: int)
    requires AllInRange(events) && Follows(Outside, events).Some?
  {
    var at, n := Follows(Outside, events).value, NotesFrom(BLANK, events, names);
    && (at != Outside ==> InUnitFrom(events, u, |events|) && n.base == events[u].address)
    && (if at == InFunction then
          u < i && InFunctionFrom(events, i, |events|) && n.current == Some(FunctionIn(events, i, |events|, names))
        else n.current == None)
  }

  lemma OneEventMore(events: seq<Event>)
    requires events != [] && Follows(Outside, events).Some?
    ensures Follows(Outside, events[..|events| - 1]).Some?
    ensures Follows(Outside, events) == Follow(Follows(Outside, events[..|events| - 1]).value, events[|events| - 1])
  {
    var n := |events| - 1;
    FollowsPrefix(Outside, events, n);
    FollowsBoth(Outside, events[..n], [events[n]]);
    assert events == events[..n] + [events[n]];
  }

  lemma {:induction false} WhereOneIs(events: seq<Event>, names: Names) returns (u: int, i: int)
    requires AllInRange(events) && Follows(Outside, events).Some?
    ensures KnowsWhere(events, names, u, i)
  {
    u, i := -1, -1;
    if events != [] {
      var n := |events| - 1;
      OneEventMore(events);
      u, i := WhereOneIs(events[..n], names);
      assert forall k | 0 <= k < n :: events[..n][k] == events[k];
      if Follows(Outside, events[..n]).value == InFunction && !events[n].EndFunction? {
        FunctionInPrefix(events, n, i, n, names);
      }
      if events[n].StartCompilationUnit? { u := n; }
      if events[n].StartFunction? {
        i := n;
        assert FunctionIn(events, n, n + 1, names) == Kept(names.demangle(events[n].symbol), events[n].address, []);
      }
    }
  }

  /** A function that the events from `i` to `j` tell of, in the unit that event `u` starts and not below its start. */
  ghost predicate IsTold(events: seq<Event>, names: Names, u: int, i: int, j: int, f: Kept)
    requires AllInRange(events)
  {
    && InUnitFrom(events, u, i) && InFunctionFrom(events, i, j) && j < |events| && events[j].EndFunction?
    && events[i].address >= events[u].address && f == FunctionIn(events, i, j, names)
  }

  /** That function, wherever it starts. */
  ghost predicate ToldBy(events: seq<Event>, names: Names, j: int, f: Kept)
    requires AllInRange(events)
  {
    exists u, i :: IsTold(events, names, u, i, j, f)
  }

  lemma ToldInPrefix(events: seq<Event>, names: Names, u: int, i: int, j: int, f: Kept)
    requires AllInRange(events) && events != [] && j < |events| - 1
    ensures IsTold(events[..|events| - 1], names, u, i, j, f) <==> IsTold(events, names, u, i, j, f)
  {
    var n := |events| - 1;
    assert forall k | 0 <= k < n :: events[..n][k] == events[k];
    if 0 <= i < j && InFunctionFrom(events[..n], i, j) { FunctionInPrefix(events, n, i, j, names); }
  }

  lemma ToldByInPrefix(events: seq<Event>, names: Names, j: int, f: Kept)
    requires AllInRange(events) && events != [] && j < |events| - 1
    ensures ToldBy(events[..|events| - 1], names, j, f) <==> ToldBy(events, names, j, f)
  {
    var before := events[..|events| - 1];
    if u, i :| IsTold(before, names, u, i, j, f) { ToldInPrefix(events, names, u, i, j, f); }
    if u, i :| IsTold(events, names, u, i, j, f) { ToldInPrefix(events, names, u, i, j, f); }
  }

  /** An event ends one function at most. */
  lemma ToldOnce(events: seq<Event>, names: Names, j: int, f: Kept, g: Kept)
    requires AllInRange(events) && ToldBy(events, names, j, f) && ToldBy(events, names, j, g)
    ensures f == g
  {
    var u, i :| IsTold(events, names, u, i, j, f);
    var u', i' :| IsTold(events, names, u', i', j, g);
    assert i == i';
  }

  /** What the last event adds. */
  lemma LastIsKept(events: seq<Event>, names: Names)
    requires AllInRange(events) && events != [] && Follows(Outside, events).Some?
    ensures var n := |events| - 1;
            var before, after := NotesFrom(BLANK, events[..n], names).functions, NotesFrom(BLANK, events, names).functions;
            if after == before then forall f :: !ToldBy(events, names, n, f)
            else |after| == |before| + 1 && after[..|before|] == before && ToldBy(events, names, n, after[|before|])
  {
    var n := |events| - 1;
    OneEventMore(events);
    var u, i := WhereOneIs(events[..n], names);
    assert forall k | 0 <= k < n :: events[..n][k] == events[k];
    if events[n].EndFunction? {
      FunctionInPrefix(events, n, i, n, names);
      StartsAreUnique(events, u, i, n);
      if events[i].address >= events[u].address {
        assert IsTold(events, names, u, i, n, FunctionIn(events, i, n, names));
      }
    }
  }

  lemma StartsAreUnique(events: seq<Event>, u: int, i: int, n: int)
    requires InUnitFrom(events, u, n) && u < i && InFunctionFrom(events, i, n)
    ensures forall i' | InFunctionFrom(events, i', n) :: i' == i
    ensures forall u' | InUnitFrom(events, u', i) :: u' == u
  {
  }

  /** Which functions are told, each with the event that ends it. */
  ghost function Tellings(events: seq<Event>, names: Names): iset<(int, Kept)>
    requires AllInRange(events)
  {
    iset j: int, f: Kept | ToldBy(events, names, j, f) :: (j, f)
  }

  /** The events that end some functions, in their order; and none other ends one. */
  ghost predicate AreEnds(told: iset<(int, Kept)>, functions: seq<Kept>, ends: seq<int>) {
    && |ends| == |functions|
    && (forall k | 0 <= k < |ends| :: (ends[k], functions[k]) in told)
    && (forall k, l | 0 <= k < l < |ends| :: ends[k] < ends[l])
    && (forall p | p in told :: p.0 in ends)
  }

  /** After events in order, each function told from start to end, and not below its unit, has been noted once. */
  lemma {:induction false} EachIsKept(events: seq<Event>, names: Names) returns (ends: seq<int>)
    requires AllInRange(events) && Follows(Outside, events).Some?
    ensures AreEnds(Tellings(events, names), NotesFrom(BLANK, events, names).functions, ends)
    decreases |events|
  {
    ends := [];
    if events != [] {
      var n := |events| - 1;
      OneEventMore(events);
      ends := EachIsKept(events[..n], names);
      LastIsKept(events, names);
      ToldInAll(events, names);
      ends := OneMoreEnds(Tellings(events[..n], names), Tellings(events, names), n,
                          NotesFrom(BLANK, events[..n], names).functions,
                          NotesFrom(BLANK, events, names).functions, ends);
    }
  }

  lemma ToldInAll(events: seq<Event>, names: Names)
    requires AllInRange(events) && events != []
    ensures IsMoreOf(Tellings(events[..|events| - 1], names), Tellings(events, names), |events| - 1)
  {
    var n := |events| - 1;
    forall p ensures p in Tellings(events[..n], names) <==> p in Tellings(events, names) && p.0 < n {
      if p.0 < n { ToldByInPrefix(events, names, p.0, p.1); }
    }
  }

  ghost predicate IsMoreOf(before: iset<(int, Kept)>, told: iset<(int, Kept)>, n: int) {
    (forall p :: p in before <==> p in told && p.0 < n) && forall p | p in told :: p.0 <= n
  }

  lemma OneMoreEnds(toldBefore: iset<(int, Kept)>, told: iset<(int, Kept)>, n: int, before: seq<Kept>, after: seq<Kept>,
                    ends: seq<int>)
    returns (more: seq<int>)
    requires IsMoreOf(toldBefore, told, n) && AreEnds(toldBefore, before, ends)
    requires if after == before then forall f :: (n, f) !in told
             else |after| == |before| + 1 && after[..|before|] == before && (n, after[|before|]) in told
    ensures AreEnds(told, after, more)
  {
    more := if after == before then ends else ends + [n];
    forall k | 0 <= k < |more| ensures (more[k], after[k]) in told {
      if k < |ends| { assert after[k] == before[k] && (ends[k], before[k]) in toldBefore; }
    }
    forall p | p in told ensures p.0 in more {
      assert p == (p.0, p.1);
      if p.0 < n { assert p in toldBefore; } else { assert more[|more| - 1] == n == p.0; }
    }
  }

  /** So the functions noted are those told. */
  lemma KeptIffTold(events: seq<Event>, names: Names, f: Kept)
    requires AllInRange(events) && Follows(Outside, events).Some?
    ensures f in NotesFrom(BLANK, events, names).functions <==> exists j :: ToldBy(events, names, j, f)
  {
    var functions := NotesFrom(BLANK, events, names).functions;
    var ends := EachIsKept(events, names);
    if f in functions {
      var k :| 0 <= k < |functions| && functions[k] == f;
      assert (ends[k], f) in Tellings(events, names);
    }
    if j :| ToldBy(events, names, j, f) {
      assert (j, f) in Tellings(events, names);
      var k :| 0 <= k < |ends| && ends[k] == j;
      ToldOnce(events, names, j, f, functions[k]);
    }
  }
}
