/** What a .stab section says, one entry at a time; and the order in which a handler hears of it. */
module StabsTrace {
  import opened Bytes
  import opened Options
  import opened Sequences
  import opened StabsEntries

  /** A name is its position in the string section. */
  type Name = nat

  datatype Event =
    | StartCompilationUnit(name: Name, address: nat, directory: Option<Name>)
    | EndCompilationUnit(address: nat)
    | StartFunction(symbol: seq<Byte>, address: nat)
    | EndFunction(address: nat)
    | Line(address: nat, name: Name, number: nat)
    | Warning(entry: nat)

  // ---- The order of events

  datatype Place = Outside | InUnit | InFunction

  /** Where one is after an event, if it may come there. */
  function Follow(at: Place, e: Event): Option<Place> {
    match e
    case Warning(_) => Some(at)
    case StartCompilationUnit(_, _, _) => if at == Outside then Some(InUnit) else None
    case EndCompilationUnit(_) => if at == InUnit then Some(Outside) else None
    case StartFunction(_, _) => if at == InUnit then Some(InFunction) else None
    case Line(_, _, _) => if at == InFunction then Some(InFunction) else None
    case EndFunction(_) => if at == InFunction then Some(InUnit) else None
  }

  function Follows(at: Place, events: seq<Event>): Option<Place>
    decreases |events|
  {
    if events == [] then Some(at)
    else
      match Follow(at, events[0])
      case None => None
      case Some(next) => Follows(next, events[1..])
  }

  lemma {:induction false} FollowsBoth(at: Place, a: seq<Event>, b: seq<Event>)
    requires Follows(at, a).Some?
    ensures Follows(at, a + b) == Follows(Follows(at, a).value, b)
    decreases |a|
  {
    if a == [] {
      assert a + b == b;
    } else {
      FollowsBoth(Follow(at, a[0]).value, a[1..], b);
      assert (a + b)[1..] == a[1..] + b;
    }
  }

  lemma {:induction false} FollowsPrefix(at: Place, events: seq<Event>, n: nat)
    requires Follows(at, events).Some? && n <= |events|
    ensures Follows(at, events[..n]).Some?
    decreases |events|
  {
    if n > 0 {
      FollowsPrefix(Follow(at, events[0]).value, events[1..], n - 1);
      assert events[..n][1..] == events[1..][..n - 1];
    }
  }

  // ---- Strings

  const SIZE_LIMIT := 0x1_0000_0000_0000_0000

  /** The string section, which ends with a NUL; and whether each unit has strings of its own. */
  datatype Section = Section(strings: seq<Byte>, unitized: bool) {
    ghost predicate Valid() {
      0 < |strings| < SIZE_LIMIT / 2 && strings[|strings| - 1] == 0
    }

    /** An entry's name, or the start of the section if it is outside the section. */
    function NameOf(e: Entry, offset: nat): Name {
      if (offset + e.nameOffset) % SIZE_LIMIT < |strings| then (offset + e.nameOffset) % SIZE_LIMIT else 0
    }

    function Warnings(e: Entry, offset: nat, i: nat): seq<Event> {
      if (offset + e.nameOffset) % SIZE_LIMIT < |strings| then [] else [Warning(i)]
    }

    /** The characters up to a NUL. */
    function Characters(name: Name): seq<Byte>
      decreases |strings| - name
    {
      if name >= |strings| || strings[name] == 0 then [] else [strings[name]] + Characters(name + 1)
    }

    predicate IsDirectory(name: Name) {
      var s := Characters(name);
      s != [] && s[|s| - 1] == '/' as int
    }
  }

  function UpTo(s: seq<Byte>, c: int): seq<Byte> {
    if s == [] || s[0] == c then [] else [s[0]] + UpTo(s[1..], c)
  }

  // ---- One entry at a time

  datatype Queued = Queued(address: nat, name: Name, number: nat)

  datatype Mode = Between | AfterDirectory(directory: Name) | Unit | Function(start: nat)

  /** What is remembered from one entry to the next. */
  datatype State = State(mode: Mode, file: Name, queued: seq<Queued>, offset: nat, nextOffset: nat)

  const START := State(Between, 0, [], 0, 0)

  function LinesOf(queued: seq<Queued>): (lines: seq<Event>)
    ensures |lines| == |queued|
  {
    if queued == [] then []
    else LinesOf(queued[..|queued| - 1])
         + [Line(queued[|queued| - 1].address, queued[|queued| - 1].name, queued[|queued| - 1].number)]
  }

  /** A section may hold other symbols between units; it may say where the next unit's strings are. */
  function StepBetween(section: Section, s: State, e: Entry, i: nat): (State, seq<Event>) {
    if e.kind == N_SO then
      var name := section.NameOf(e, s.offset);
      if section.IsDirectory(name) then
        (s.(mode := AfterDirectory(name)), section.Warnings(e, s.offset, i))
      else
        var (next, events) := StepName(section, s, e, i, None);
        (next, section.Warnings(e, s.offset, i) + events)
    else if e.kind == N_UNDF && section.unitized then
      (s.(offset := s.nextOffset, nextOffset := e.value), [])
    else (s, [])
  }

  /** An N_SO entry that names a unit, or is a stray end marker. */
  function StepName(section: Section, s: State, e: Entry, i: nat, directory: Option<Name>): (State, seq<Event>) {
    var name := section.NameOf(e, s.offset);
    if section.Characters(name) == [] then (s.(mode := Between), section.Warnings(e, s.offset, i))
    else (s.(mode := Unit, file := name),
          section.Warnings(e, s.offset, i) + [StartCompilationUnit(name, e.value, directory)])
  }

  function StepUnit(section: Section, s: State, e: Entry, i: nat): (State, seq<Event>) {
    var name, warnings := section.NameOf(e, s.offset), section.Warnings(e, s.offset, i);
    if e.kind == N_SO then
      if section.Characters(name) == [] then
        (s.(mode := Between, queued := []), warnings + [EndCompilationUnit(e.value)])
      else
        var (next, events) := StepBetween(section, s.(mode := Between, queued := []), e, i);
        (next, warnings + [EndCompilationUnit(0)] + events)
    else if e.kind == N_FUN then
      (s.(mode := Function(e.value), queued := []),
       warnings + [StartFunction(UpTo(section.Characters(name), ':' as int), e.value)] + LinesOf(s.queued))
    else if e.kind == N_SLINE then
      (s.(queued := s.queued + [Queued(e.value, s.file, e.descriptor)]), [])
    else if e.kind == N_SOL then (s.(file := name), warnings)
    else (s, [])
  }

  /** A function ends where the next function or unit begins, or at an N_FUN entry without a name. */
  function StepFunction(section: Section, s: State, e: Entry, i: nat): (State, seq<Event>)
    requires s.mode.Function?
  {
    var name, warnings := section.NameOf(e, s.offset), section.Warnings(e, s.offset, i);
    if e.kind == N_SO then
      var (next, events) := StepUnit(section, s.(mode := Unit), e, i);
      (next, [EndFunction(e.value)] + events)
    else if e.kind == N_FUN then
      if section.Characters(name) == [] then
        (s.(mode := Unit), warnings + [EndFunction((s.mode.start + e.value) % SIZE_LIMIT)])
      else
        var (next, events) := StepUnit(section, s.(mode := Unit), e, i);
        (next, warnings + [EndFunction(e.value)] + events)
    else if e.kind == N_SLINE then
      (s, [Line((s.mode.start + e.value) % SIZE_LIMIT, s.file, e.descriptor)])
    else if e.kind == N_SOL then (s.(file := name), warnings)
    else (s, [])
  }

  function Step(section: Section, s: State, e: Entry, i: nat): (State, seq<Event>) {
    match s.mode
    case Between => StepBetween(section, s, e, i)
    case AfterDirectory(directory) =>
      if e.kind == N_SO then StepName(section, s, e, i, Some(directory))
      else StepBetween(section, s.(mode := Between), e, i)
    case Unit => StepUnit(section, s, e, i)
    case Function(_) => StepFunction(section, s, e, i)
  }

  /** What is left open at the end of the section is closed, at no known address. */
  function Finish(s: State): seq<Event> {
    match s.mode
    case Function(_) => [EndFunction(0), EndCompilationUnit(0)]
    case Unit => [EndCompilationUnit(0)]
    case _ => []
  }

  /** The events from entry `i` on. */
  function Rest(section: Section, s: State, entries: seq<Entry>, i: nat): seq<Event>
    requires i <= |entries|
    decreases |entries| - i
  {
    if i == |entries| then Finish(s)
    else
      var (next, events) := Step(section, s, entries[i], i);
      events + Rest(section, next, entries, i + 1)
  }

  function Trace(section: Section, entries: seq<Entry>): seq<Event> {
    Rest(section, START, entries, 0)
  }

  // ---- What comes next, case by case

  /** A function, at an N_FUN entry: the end of it, or the beginning of the next. */
  lemma FunctionAtFunction(section: Section, s: State, entries: seq<Entry>, i: nat)
    requires i < |entries| && s.mode.Function? && entries[i].kind == N_FUN
    ensures var e, after := entries[i], s.(mode := Unit);
            Rest(section, s, entries, i) == section.Warnings(e, s.offset, i)
              + if section.Characters(section.NameOf(e, s.offset)) == [] then
                  [EndFunction((s.mode.start + e.value) % SIZE_LIMIT)] + Rest(section, after, entries, i + 1)
                else [EndFunction(e.value)] + Rest(section, after, entries, i)
  {
    var e, after := entries[i], s.(mode := Unit);
    var warnings := section.Warnings(e, s.offset, i);
    if section.Characters(section.NameOf(e, s.offset)) != [] {
      var (next, events) := StepUnit(section, after, e, i);
      EndsBefore(section, s, after, entries, i, next, warnings, EndFunction(e.value), events);
    }
  }

  /** A unit, at an N_FUN entry: a function, and the lines that came before it. */
  lemma UnitAtFunction(section: Section, s: State, entries: seq<Entry>, i: nat)
    requires i < |entries| && s.mode == Unit && entries[i].kind == N_FUN
    ensures var e := entries[i];
            var start := StartFunction(UpTo(section.Characters(section.NameOf(e, s.offset)), ':' as int), e.value);
            var after := Rest(section, s.(mode := Function(e.value), queued := []), entries, i + 1);
            Rest(section, s, entries, i) == section.Warnings(e, s.offset, i) + ([start] + (LinesOf(s.queued) + after))
  {
    var e := entries[i];
    var start := StartFunction(UpTo(section.Characters(section.NameOf(e, s.offset)), ':' as int), e.value);
    var next := s.(mode := Function(e.value), queued := []);
    RestIs(section, s, entries, i, next, section.Warnings(e, s.offset, i) + [start] + LinesOf(s.queued));
    ThreeParts(section.Warnings(e, s.offset, i), start, LinesOf(s.queued), Rest(section, next, entries, i + 1));
  }

  /** Something ends at an entry that then counts for what is around it. */
  lemma EndsBefore(section: Section, s: State, after: State, entries: seq<Entry>, i: nat, next: State,
                   warnings: seq<Event>, end: Event, events: seq<Event>)
    requires i < |entries| && Step(section, after, entries[i], i) == (next, events)
    requires Step(section, s, entries[i], i) == (next, warnings + [end] + events)
    ensures Rest(section, s, entries, i) == warnings + ([end] + Rest(section, after, entries, i))
  {
    RestIs(section, after, entries, i, next, events);
    RestIs(section, s, entries, i, next, warnings + [end] + events);
    ThreeParts(warnings, end, events, Rest(section, next, entries, i + 1));
  }

  lemma ThreeParts(a: seq<Event>, e: Event, b: seq<Event>, c: seq<Event>)
    ensures (a + [e] + b) + c == a + ([e] + (b + c))
  {
  }

  /** A unit, at an N_SO entry: the end of it, or the beginning of the next. */
  lemma UnitAtUnit(section: Section, s: State, entries: seq<Entry>, i: nat)
    requires i < |entries| && s.mode == Unit && entries[i].kind == N_SO
    ensures var e, after := entries[i], s.(mode := Between, queued := []);
            Rest(section, s, entries, i) == section.Warnings(e, s.offset, i)
              + if section.Characters(section.NameOf(e, s.offset)) == [] then
                  [EndCompilationUnit(e.value)] + Rest(section, after, entries, i + 1)
                else [EndCompilationUnit(0)] + Rest(section, after, entries, i)
  {
    var e, after := entries[i], s.(mode := Between, queued := []);
    var warnings := section.Warnings(e, s.offset, i);
    if section.Characters(section.NameOf(e, s.offset)) != [] {
      var (next, events) := StepBetween(section, after, e, i);
      EndsBefore(section, s, after, entries, i, next, warnings, EndCompilationUnit(0), events);
    }
  }

  lemma RestIs(section: Section, s: State, entries: seq<Entry>, i: nat, next: State, events: seq<Event>)
    requires i < |entries| && Step(section, s, entries[i], i) == (next, events)
    ensures Rest(section, s, entries, i) == events + Rest(section, next, entries, i + 1)
  {
  }

  /** At an N_SO entry that names a unit, or is a stray end marker. */
  ghost function NameAndRest(section: Section, s: State, directory: Option<Name>, entries: seq<Entry>, i: nat): seq<Event>
    requires i < |entries|
  {
    section.Warnings(entries[i], s.offset, i)
    + NamedRest(section, s, section.NameOf(entries[i], s.offset), directory, entries, i)
  }

  ghost function NamedRest(section: Section, s: State, name: Name, directory: Option<Name>, entries: seq<Entry>, i: nat)
    : seq<Event>
    requires i < |entries|
  {
    if section.Characters(name) == [] then Rest(section, s.(mode := Between), entries, i + 1)
    else [StartCompilationUnit(name, entries[i].value, directory)]
         + Rest(section, s.(mode := Unit, file := name), entries, i + 1)
  }

  /** Between units, at an N_SO entry: a directory, or what may be the name of the unit. */
  lemma BetweenAtUnit(section: Section, s: State, entries: seq<Entry>, i: nat)
    requires i < |entries| && s.mode == Between && entries[i].kind == N_SO
    ensures var e := entries[i];
            var name := section.NameOf(e, s.offset);
            Rest(section, s, entries, i) == section.Warnings(e, s.offset, i)
              + if section.IsDirectory(name) then Rest(section, s.(mode := AfterDirectory(name)), entries, i + 1)
                else NameAndRest(section, s, None, entries, i)
  {
    if !section.IsDirectory(section.NameOf(entries[i], s.offset)) { BetweenAtName(section, s, entries, i); }
  }

  lemma BetweenAtName(section: Section, s: State, entries: seq<Entry>, i: nat)
    requires i < |entries| && s.mode == Between && entries[i].kind == N_SO
    requires !section.IsDirectory(section.NameOf(entries[i], s.offset))
    ensures Rest(section, s, entries, i)
         == section.Warnings(entries[i], s.offset, i) + NameAndRest(section, s, None, entries, i)
  {
    var e := entries[i];
    var (next, events) := StepName(section, s, e, i, None);
    assert Step(section, s, e, i) == (next, section.Warnings(e, s.offset, i) + events);
    Associative(section.Warnings(e, s.offset, i), events, Rest(section, next, entries, i + 1));
    NameIsNext(section, s, None, entries, i);
  }

  lemma NameIsNext(section: Section, s: State, directory: Option<Name>, entries: seq<Entry>, i: nat)
    requires i < |entries|
    ensures var (next, events) := StepName(section, s, entries[i], i, directory);
            events + Rest(section, next, entries, i + 1) == NameAndRest(section, s, directory, entries, i)
  {
  }


  /** After a directory, at an N_SO entry: what may be the name of the unit; at any other, nothing was begun. */
  lemma AfterADirectory(section: Section, s: State, directory: Name, entries: seq<Entry>, i: nat)
    requires i <= |entries|
    ensures Rest(section, s.(mode := AfterDirectory(directory)), entries, i)
         == if i == |entries| || entries[i].kind != N_SO then Rest(section, s.(mode := Between), entries, i)
            else NameAndRest(section, s, Some(directory), entries, i)
  {
  }

  // ---- The order is kept

  function PlaceOf(s: State): Place {
    match s.mode
    case Unit => InUnit
    case Function(_) => InFunction
    case _ => Outside
  }

  ghost predicate Leads(at: Place, events: seq<Event>, to: Place) {
    Follows(at, events) == Some(to)
  }

  lemma LeadsBoth(at: Place, a: seq<Event>, between: Place, b: seq<Event>, to: Place)
    requires Leads(at, a, between) && Leads(between, b, to)
    ensures Leads(at, a + b, to)
  {
    FollowsBoth(at, a, b);
  }

  lemma LeadsOne(at: Place, e: Event)
    requires Follow(at, e).Some?
    ensures Leads(at, [e], Follow(at, e).value)
  {
    assert [e][1..] == [];
  }

  lemma WarningsLead(section: Section, e: Entry, offset: nat, i: nat, at: Place)
    ensures Leads(at, section.Warnings(e, offset, i), at)
  {
    LeadsOne(at, Warning(i));
  }

  lemma {:induction false} LinesLead(queued: seq<Queued>)
    ensures Leads(InFunction, LinesOf(queued), InFunction)
  {
    if queued != [] {
      var n := |queued| - 1;
      LinesLead(queued[..n]);
      LeadsOne(InFunction, Line(queued[n].address, queued[n].name, queued[n].number));
      LeadsBoth(InFunction, LinesOf(queued[..n]), InFunction, [Line(queued[n].address, queued[n].name, queued[n].number)],
                InFunction);
    }
  }

  lemma NameLeads(section: Section, s: State, e: Entry, i: nat, directory: Option<Name>)
    ensures var (next, events) := StepName(section, s, e, i, directory);
            Leads(Outside, events, PlaceOf(next))
  {
    var name := section.NameOf(e, s.offset);
    WarningsLead(section, e, s.offset, i, Outside);
    if section.Characters(name) != [] {
      var start := StartCompilationUnit(name, e.value, directory);
      LeadsOne(Outside, start);
      LeadsBoth(Outside, section.Warnings(e, s.offset, i), Outside, [start], InUnit);
    }
  }

  lemma BetweenLeads(section: Section, s: State, e: Entry, i: nat)
    requires PlaceOf(s) == Outside
    ensures var (next, events) := StepBetween(section, s, e, i);
            Leads(Outside, events, PlaceOf(next))
  {
    if e.kind == N_SO {
      WarningsLead(section, e, s.offset, i, Outside);
      NameLeads(section, s, e, i, None);
      var (next, events) := StepName(section, s, e, i, None);
      LeadsBoth(Outside, section.Warnings(e, s.offset, i), Outside, events, PlaceOf(next));
    }
  }

  lemma UnitLeads(section: Section, s: State, e: Entry, i: nat)
    requires s.mode == Unit
    ensures var (next, events) := StepUnit(section, s, e, i);
            Leads(InUnit, events, PlaceOf(next))
  {
    var name, warnings := section.NameOf(e, s.offset), section.Warnings(e, s.offset, i);
    WarningsLead(section, e, s.offset, i, InUnit);
    if e.kind == N_SO {
      LeadsOne(InUnit, EndCompilationUnit(e.value));
      LeadsOne(InUnit, EndCompilationUnit(0));
      LeadsBoth(InUnit, warnings, InUnit, [EndCompilationUnit(e.value)], Outside);
      LeadsBoth(InUnit, warnings, InUnit, [EndCompilationUnit(0)], Outside);
      BetweenLeads(section, s.(mode := Between, queued := []), e, i);
      var (next, events) := StepBetween(section, s.(mode := Between, queued := []), e, i);
      LeadsBoth(InUnit, warnings + [EndCompilationUnit(0)], Outside, events, PlaceOf(next));
    } else if e.kind == N_FUN {
      var start := StartFunction(UpTo(section.Characters(name), ':' as int), e.value);
      LeadsOne(InUnit, start);
      LeadsBoth(InUnit, warnings, InUnit, [start], InFunction);
      LinesLead(s.queued);
      LeadsBoth(InUnit, warnings + [start], InFunction, LinesOf(s.queued), InFunction);
    }
  }

  lemma FunctionLeads(section: Section, s: State, e: Entry, i: nat)
    requires s.mode.Function?
    ensures var (next, events) := StepFunction(section, s, e, i);
            Leads(InFunction, events, PlaceOf(next))
  {
    var warnings := section.Warnings(e, s.offset, i);
    WarningsLead(section, e, s.offset, i, InFunction);
    UnitLeads(section, s.(mode := Unit), e, i);
    var (next, events) := StepUnit(section, s.(mode := Unit), e, i);
    var ends, early := EndFunction(e.value), EndFunction((s.mode.start + e.value) % SIZE_LIMIT);
    LeadsOne(InFunction, ends);
    LeadsOne(InFunction, early);
    LeadsBoth(InFunction, [ends], InUnit, events, PlaceOf(next));
    LeadsBoth(InFunction, warnings, InFunction, [ends], InUnit);
    LeadsBoth(InFunction, warnings + [ends], InUnit, events, PlaceOf(next));
    LeadsBoth(InFunction, warnings, InFunction, [early], InUnit);
    LeadsOne(InFunction, Line((s.mode.start + e.value) % SIZE_LIMIT, s.file, e.descriptor));
  }

  lemma StepLeads(section: Section, s: State, e: Entry, i: nat)
    ensures var (next, events) := Step(section, s, e, i);
            Leads(PlaceOf(s), events, PlaceOf(next))
  {
    match s.mode
    case Between => BetweenLeads(section, s, e, i);
    case AfterDirectory(directory) =>
      NameLeads(section, s, e, i, Some(directory));
      BetweenLeads(section, s.(mode := Between), e, i);
    case Unit => UnitLeads(section, s, e, i);
    case Function(_) => FunctionLeads(section, s, e, i);
  }

  lemma {:induction false} RestLeads(section: Section, s: State, entries: seq<Entry>, i: nat)
    requires i <= |entries|
    ensures Leads(PlaceOf(s), Rest(section, s, entries, i), Outside)
    decreases |entries| - i
  {
    if i == |entries| {
      LeadsOne(InFunction, EndFunction(0));
      LeadsOne(InUnit, EndCompilationUnit(0));
      LeadsBoth(InFunction, [EndFunction(0)], InUnit, [EndCompilationUnit(0)], Outside);
      assert [EndFunction(0), EndCompilationUnit(0)] == [EndFunction(0)] + [EndCompilationUnit(0)];
    } else {
      var (next, events) := Step(section, s, entries[i], i);
      StepLeads(section, s, entries[i], i);
      RestLeads(section, next, entries, i + 1);
      LeadsBoth(PlaceOf(s), events, PlaceOf(next), Rest(section, next, entries, i + 1), Outside);
    }
  }

  /** Whatever the bytes of the section, its events come in order: units with functions with lines, all closed. */
  lemma TraceIsInOrder(section: Section, entries: seq<Entry>)
    ensures Leads(Outside, Trace(section, entries), Outside)
  {
    RestLeads(section, START, entries, 0);
  }
}
