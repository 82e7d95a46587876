/** When the module's assertion on names stops the program, in terms of the entries of a section. */
module StabsStops {
  import opened Addresses
  import opened Bytes
  import opened ModuleFunctions
  import opened Options
  import opened Sequences
  import opened StabsEntries
  import opened StabsHeard
  import opened StabsNameless
  import opened StabsPipeline
  import opened StabsToModules
  import opened StabsTrace
  import opened Symbols

  /** Where the unit starts that is open before entry `k`. */
  function UnitBase(section: Section, entries: seq<Entry>, k: nat): nat
    requires k <= |entries|
  {
    if k == 0 then 0
    else BaseAfter(StateAt(section, entries, k), entries[k - 1], UnitBase(section, entries, k - 1))
  }

  /** An N_SO entry behind which a unit is open has started it. */
  function BaseAfter(next: State, e: Entry, base: nat): nat {
    if e.kind == N_SO && next.mode == Unit then e.value else base
  }

  /** The entry starts a function without a name, and not below its unit, where it would be dropped. */
  predicate StopsProgram(section: Section, s: State, e: Entry, base: nat) {
    StartsNameless(section, s, e) && e.value >= base
  }

  /** Only the empty symbol stands for an empty name. */
  ghost predicate KeepsNames(names: Names) {
    forall symbol :: names.demangle(symbol) == "" <==> symbol == []
  }

  // ---- Notes, as entries are read

  ghost predicate HasEmpty(functions: seq<Kept>) {
    exists i :: 0 <= i < |functions| && functions[i].name == ""
  }

  /** There is a function without a name, or there will be one when the current one ends. */
  ghost predicate IsLost(n: Notes) {
    || HasEmpty(n.functions)
    || (n.current.Some? && n.current.value.name == "" && n.current.value.address >= n.base)
  }

  /** The notes go with what the reader remembers. */
  ghost predicate GoesWith(n: Notes, s: State, base: nat) {
    && (n.current.Some? <==> s.mode.Function?)
    && (s.mode == Unit || s.mode.Function? ==> n.base == base)
  }

  lemma {:induction false} NotesBoth(n: Notes, a: seq<Event>, b: seq<Event>, names: Names)
    requires AllInRange(a) && AllInRange(b)
    ensures AllInRange(a + b) && NotesFrom(n, a + b, names) == NotesFrom(NotesFrom(n, a, names), b, names)
    decreases |b|
  {
    if b == [] {
      assert a + b == a;
    } else {
      NotesBoth(n, a, b[..|b| - 1], names);
      assert (a + b)[..|a + b| - 1] == a + b[..|b| - 1];
    }
  }

  lemma NotesOne(n: Notes, e: Event, names: Names)
    requires InRange(e)
    ensures AllInRange([e]) && NotesFrom(n, [e], names) == Note(n, e, names)
  {
    assert [e][..0] == [];
  }

  lemma WarningsNote(n: Notes, section: Section, e: Entry, offset: nat, i: nat, names: Names)
    ensures AllInRange(section.Warnings(e, offset, i)) && NotesFrom(n, section.Warnings(e, offset, i), names) == n
  {
    NotesOne(n, Warning(i), names);
  }

  lemma {:induction false} LinesNote(n: Notes, queued: seq<Queued>, names: Names)
    requires AllInRange(LinesOf(queued)) && n.current.Some?
    ensures var after := NotesFrom(n, LinesOf(queued), names);
            after.current.Some? && IsLost(after) == IsLost(n) && after.base == n.base
            && after.functions == n.functions && after.current.value.name == n.current.value.name
            && after.current.value.address == n.current.value.address
  {
    if queued != [] {
      var m := |queued| - 1;
      assert LinesOf(queued)[..m] == LinesOf(queued[..m]);
      LinesNote(n, queued[..m], names);
    }
  }

  /** A function that ends is lost by then, or not at all. */
  lemma EndNote(n: Notes, address: Address, names: Names)
    requires n.current.Some?
    ensures var after := Note(n, EndFunction(address), names);
            after.current == None && after.base == n.base && (IsLost(after) <==> IsLost(n))
  {
    var after := Note(n, EndFunction(address), names);
    if HasEmpty(n.functions) {
      var i :| 0 <= i < |n.functions| && n.functions[i].name == "";
      assert after.functions[i] == n.functions[i];
    }
    if after.functions != n.functions { assert after.functions[|n.functions|] == n.current.value; }
  }

  /** What an entry makes of the notes, when one is in no function. */
  ghost predicate StepsTo(section: Section, n: Notes, s: State, e: Entry, base: nat, next: State, events: seq<Event>,
                          names: Names)
    requires AllInRange(events)
  {
    var after := NotesFrom(n, events, names);
    GoesWith(after, next, BaseAfter(next, e, base)) && (IsLost(after) <==> IsLost(n) || StopsProgram(section, s, e, base))
  }

  lemma NameStep(section: Section, n: Notes, s: State, e: Entry, i: nat, directory: Option<Name>, base: nat, names: Names)
    requires n.current == None && e.kind == N_SO && e.value < ADDRESS_LIMIT
    ensures AllInRange(StepName(section, s, e, i, directory).1)
    ensures StepsTo(section, n, s, e, base, StepName(section, s, e, i, directory).0,
                    StepName(section, s, e, i, directory).1, names)
  {
    var name := section.NameOf(e, s.offset);
    WarningsNote(n, section, e, s.offset, i, names);
    if section.Characters(name) != [] {
      NotesOne(n, StartCompilationUnit(name, e.value, directory), names);
      NotesBoth(n, section.Warnings(e, s.offset, i), [StartCompilationUnit(name, e.value, directory)], names);
    }
  }

  lemma BetweenStep(section: Section, n: Notes, s: State, e: Entry, i: nat, base: nat, names: Names)
    requires n.current == None && e.value < ADDRESS_LIMIT && s.mode == Between
    ensures AllInRange(StepBetween(section, s, e, i).1)
    ensures StepsTo(section, n, s, e, base, StepBetween(section, s, e, i).0, StepBetween(section, s, e, i).1, names)
  {
    WarningsNote(n, section, e, s.offset, i, names);
    if e.kind == N_SO && !section.IsDirectory(section.NameOf(e, s.offset)) {
      NameStep(section, n, s, e, i, None, base, names);
      NotesBoth(n, section.Warnings(e, s.offset, i), StepName(section, s, e, i, None).1, names);
    }
  }

  lemma StartNote(section: Section, n: Notes, s: State, e: Entry, base: nat, names: Names)
    requires n.current == None && n.base == base && e.value < ADDRESS_LIMIT && e.kind == N_FUN && s.mode == Unit
    requires KeepsNames(names)
    ensures var start := StartFunction(UpTo(section.Characters(section.NameOf(e, s.offset)), ':' as int), e.value);
            var after := Note(n, start, names);
            after.current.Some? && after.base == base && (IsLost(after) <==> IsLost(n) || StopsProgram(section, s, e, base))
  {
    var symbol := section.Characters(section.NameOf(e, s.offset));
    assert UpTo(symbol, ':' as int) == [] <==> symbol == [] || symbol[0] == ':' as int;
    assert names.demangle(UpTo(symbol, ':' as int)) == "" <==> UpTo(symbol, ':' as int) == [];
  }

  lemma UnitStep(section: Section, n: Notes, s: State, e: Entry, i: nat, base: nat, names: Names)
    requires n.current == None && n.base == base && e.value < ADDRESS_LIMIT && s.mode == Unit && KeepsNames(names)
    requires StateInRange(s)
    ensures AllInRange(StepUnit(section, s, e, i).1)
    ensures StepsTo(section, n, s, e, base, StepUnit(section, s, e, i).0, StepUnit(section, s, e, i).1, names)
  {
    var name, warnings := section.NameOf(e, s.offset), section.Warnings(e, s.offset, i);
    WarningsNote(n, section, e, s.offset, i, names);
    if e.kind == N_SO {
      UnitEnds(section, n, s, e, i, base, names);
    } else if e.kind == N_FUN {
      var start := StartFunction(UpTo(section.Characters(name), ':' as int), e.value);
      StartNote(section, n, s, e, base, names);
      NotesOne(n, start, names);
      NotesBoth(n, warnings, [start], names);
      LinesInRange(s.queued);
      LinesNote(Note(n, start, names), s.queued, names);
      NotesBoth(n, warnings + [start], LinesOf(s.queued), names);
    }
  }

  lemma UnitEnds(section: Section, n: Notes, s: State, e: Entry, i: nat, base: nat, names: Names)
    requires n.current == None && e.value < ADDRESS_LIMIT && s.mode == Unit && e.kind == N_SO
    ensures AllInRange(StepUnit(section, s, e, i).1)
    ensures StepsTo(section, n, s, e, base, StepUnit(section, s, e, i).0, StepUnit(section, s, e, i).1, names)
  {
    var name, warnings := section.NameOf(e, s.offset), section.Warnings(e, s.offset, i);
    var address := if section.Characters(name) == [] then e.value else 0;
    var between, after := s.(mode := Between, queued := []), Note(n, EndCompilationUnit(address), names);
    WarningsNote(n, section, e, s.offset, i, names);
    NotesOne(n, EndCompilationUnit(address), names);
    NotesBoth(n, warnings, [EndCompilationUnit(address)], names);
    if section.Characters(name) != [] {
      BetweenStep(section, after, between, e, i, base, names);
      NotesBoth(n, warnings + [EndCompilationUnit(0)], StepBetween(section, between, e, i).1, names);
    }
  }

  lemma FunctionStep(section: Section, n: Notes, s: State, e: Entry, i: nat, base: nat, names: Names)
    requires n.current.Some? && n.base == base && e.value < ADDRESS_LIMIT && s.mode.Function? && KeepsNames(names)
    requires StateInRange(s)
    ensures AllInRange(StepFunction(section, s, e, i).1)
    ensures StepsTo(section, n, s, e, base, StepFunction(section, s, e, i).0, StepFunction(section, s, e, i).1, names)
  {
    hide StepFunction, StepsTo, StartsNameless;
    if e.kind == N_SO {
      FunctionAtUnit(section, n, s, e, i, base, names);
    } else if e.kind != N_FUN {
      FunctionAtOther(section, n, s, e, i, base, names);
    } else if section.Characters(section.NameOf(e, s.offset)) == [] {
      FunctionAtEnd(section, n, s, e, i, base, names);
    } else {
      FunctionAtNamed(section, n, s, e, i, base, names);
    }
  }

  lemma FunctionAtEnd(section: Section, n: Notes, s: State, e: Entry, i: nat, base: nat, names: Names)
    requires n.current.Some? && n.base == base && e.value < ADDRESS_LIMIT && s.mode.Function? && StateInRange(s)
    requires e.kind == N_FUN && section.Characters(section.NameOf(e, s.offset)) == []
    ensures AllInRange(StepFunction(section, s, e, i).1)
    ensures StepsTo(section, n, s, e, base, StepFunction(section, s, e, i).0, StepFunction(section, s, e, i).1, names)
  {
    var warnings, address := section.Warnings(e, s.offset, i), (s.mode.start + e.value) % SIZE_LIMIT;
    WarningsNote(n, section, e, s.offset, i, names);
    EndsNoted(n, warnings, address, names);
    EndStep(section, s, e, i, address);
  }

  lemma EndStep(section: Section, s: State, e: Entry, i: nat, address: nat)
    requires s.mode.Function? && e.kind == N_FUN && section.Characters(section.NameOf(e, s.offset)) == []
    requires address == (s.mode.start + e.value) % SIZE_LIMIT
    ensures StepFunction(section, s, e, i) == (s.(mode := Unit), section.Warnings(e, s.offset, i) + [EndFunction(address)])
    ensures !StartsNameless(section, s, e)
  {
  }

  lemma FunctionAtOther(section: Section, n: Notes, s: State, e: Entry, i: nat, base: nat, names: Names)
    requires n.current.Some? && n.base == base && e.value < ADDRESS_LIMIT && s.mode.Function? && StateInRange(s)
    requires e.kind != N_SO && e.kind != N_FUN
    ensures AllInRange(StepFunction(section, s, e, i).1)
    ensures StepsTo(section, n, s, e, base, StepFunction(section, s, e, i).0, StepFunction(section, s, e, i).1, names)
  {
    WarningsNote(n, section, e, s.offset, i, names);
    if e.kind == N_SLINE {
      var line := Event.Line((s.mode.start + e.value) % SIZE_LIMIT, s.file, e.descriptor);
      LineNote(n, line, names);
      LineStep(section, s, e, i, line);
    }
  }

  lemma LineStep(section: Section, s: State, e: Entry, i: nat, line: Event)
    requires s.mode.Function? && e.kind == N_SLINE
    requires line == Event.Line((s.mode.start + e.value) % SIZE_LIMIT, s.file, e.descriptor)
    ensures StepFunction(section, s, e, i) == (s, [line])
  {
  }

  lemma LineNote(n: Notes, line: Event, names: Names)
    requires n.current.Some? && line.Line? && InRange(line)
    ensures AllInRange([line])
    ensures var after := NotesFrom(n, [line], names);
            after.current.Some? && after.base == n.base && (IsLost(after) <==> IsLost(n))
  {
    NotesOne(n, line, names);
  }

  lemma EndsNoted(n: Notes, warnings: seq<Event>, address: Address, names: Names)
    requires n.current.Some? && AllInRange(warnings) && NotesFrom(n, warnings, names) == n
    ensures AllInRange(warnings + [EndFunction(address)])
    ensures var after := NotesFrom(n, warnings + [EndFunction(address)], names);
            after == Note(n, EndFunction(address), names)
            && after.current == None && after.base == n.base && (IsLost(after) <==> IsLost(n))
  {
    EndNote(n, address, names);
    NotesOne(n, EndFunction(address), names);
    NotesBoth(n, warnings, [EndFunction(address)], names);
  }

  lemma FunctionAtUnit(section: Section, n: Notes, s: State, e: Entry, i: nat, base: nat, names: Names)
    requires n.current.Some? && n.base == base && e.value < ADDRESS_LIMIT && s.mode.Function? && e.kind == N_SO
    ensures AllInRange(StepFunction(section, s, e, i).1)
    ensures StepsTo(section, n, s, e, base, StepFunction(section, s, e, i).0, StepFunction(section, s, e, i).1, names)
  {
    var unit, ended := s.(mode := Unit), Note(n, EndFunction(e.value), names);
    EndNote(n, e.value, names);
    NotesOne(n, EndFunction(e.value), names);
    UnitEnds(section, ended, unit, e, i, base, names);
    NotesBoth(n, [EndFunction(e.value)], StepUnit(section, unit, e, i).1, names);
  }

  lemma FunctionAtNamed(section: Section, n: Notes, s: State, e: Entry, i: nat, base: nat, names: Names)
    requires n.current.Some? && n.base == base && e.value < ADDRESS_LIMIT && s.mode.Function? && KeepsNames(names)
    requires StateInRange(s) && e.kind == N_FUN && section.Characters(section.NameOf(e, s.offset)) != []
    ensures AllInRange(StepFunction(section, s, e, i).1)
    ensures StepsTo(section, n, s, e, base, StepFunction(section, s, e, i).0, StepFunction(section, s, e, i).1, names)
  {
    var unit, ended := s.(mode := Unit), Note(n, EndFunction(e.value), names);
    var warnings := section.Warnings(e, s.offset, i);
    WarningsNote(n, section, e, s.offset, i, names);
    EndsNoted(n, warnings, e.value, names);
    UnitStep(section, ended, unit, e, i, base, names);
    NotesBoth(n, warnings + [EndFunction(e.value)], StepUnit(section, unit, e, i).1, names);
  }

  lemma OneStep(section: Section, n: Notes, s: State, e: Entry, i: nat, base: nat, names: Names)
    requires GoesWith(n, s, base) && StateInRange(s) && e.value < ADDRESS_LIMIT && KeepsNames(names)
    ensures StateInRange(Step(section, s, e, i).0) && AllInRange(Step(section, s, e, i).1)
    ensures StepsTo(section, n, s, e, base, Step(section, s, e, i).0, Step(section, s, e, i).1, names)
  {
    StepInRange(section, s, e, i);
    match s.mode
    case Between => BetweenStep(section, n, s, e, i, base, names);
    case AfterDirectory(directory) =>
      if e.kind == N_SO { NameStep(section, n, s, e, i, Some(directory), base, names); }
      else { BetweenStep(section, n, s.(mode := Between), e, i, base, names); }
    case Unit => UnitStep(section, n, s, e, i, base, names);
    case Function(_) => FunctionStep(section, n, s, e, i, base, names);
  }

  // ---- A whole section

  /** What is told of the first `k` entries. */
  function EventsUpTo(section: Section, entries: seq<Entry>, k: nat): seq<Event>
    requires k <= |entries|
  {
    if k == 0 then []
    else EventsUpTo(section, entries, k - 1) + Step(section, StateAt(section, entries, k - 1), entries[k - 1], k - 1).1
  }

  lemma {:induction false} TraceIsBoth(section: Section, entries: seq<Entry>, k: nat)
    requires k <= |entries|
    ensures Trace(section, entries) == EventsUpTo(section, entries, k) + Rest(section, StateAt(section, entries, k), entries, k)
  {
    hide Step, Finish;
    if k > 0 {
      TraceIsBoth(section, entries, k - 1);
      var s := StateAt(section, entries, k - 1);
      var (next, events) := Step(section, s, entries[k - 1], k - 1);
      RestIs(section, s, entries, k - 1, next, events);
      Associative(EventsUpTo(section, entries, k - 1), events, Rest(section, next, entries, k));
    }
  }

  /** Entry `j` stops the program. */
  predicate StopsAt(section: Section, entries: seq<Entry>, j: nat)
    requires j < |entries|
  {
    StopsProgram(section, StateAt(section, entries, j), entries[j], UnitBase(section, entries, j))
  }

  ghost predicate StopsSomewhere(section: Section, entries: seq<Entry>) {
    exists j :: 0 <= j < |entries| && StopsAt(section, entries, j)
  }

  ghost predicate HasUnnamed(functions: seq<Function>)
    reads functions
  {
    exists f :: f in functions && f.name == ""
  }

  lemma {:induction false} NotesUpTo(section: Section, entries: seq<Entry>, k: nat, names: Names)
    requires k <= |entries| && KeepsNames(names) && forall j | 0 <= j < |entries| :: entries[j].value < ADDRESS_LIMIT
    ensures StateInRange(StateAt(section, entries, k)) && AllInRange(EventsUpTo(section, entries, k))
    ensures var n := NotesFrom(BLANK, EventsUpTo(section, entries, k), names);
            && GoesWith(n, StateAt(section, entries, k), UnitBase(section, entries, k))
            && (IsLost(n) <==> exists j :: 0 <= j < k && StopsAt(section, entries, j))
  {
    hide Step, IsLost, StopsProgram;
    if k == 0 {
      NothingIsLost();
    } else {
      NotesUpTo(section, entries, k - 1, names);
      var s, before := StateAt(section, entries, k - 1), EventsUpTo(section, entries, k - 1);
      var n := NotesFrom(BLANK, before, names);
      OneStep(section, n, s, entries[k - 1], k - 1, UnitBase(section, entries, k - 1), names);
      NotesBoth(BLANK, before, Step(section, s, entries[k - 1], k - 1).1, names);
      assert EventsUpTo(section, entries, k) == before + Step(section, s, entries[k - 1], k - 1).1;
      assert StopsAt(section, entries, k - 1) == StopsProgram(section, s, entries[k - 1], UnitBase(section, entries, k - 1));
    }
  }

  lemma NothingIsLost()
    ensures !IsLost(BLANK)
  {
  }

  lemma FinishNotes(n: Notes, s: State, base: nat, names: Names)
    requires GoesWith(n, s, base)
    ensures AllInRange(Finish(s)) && (HasEmpty(NotesFrom(n, Finish(s), names).functions) <==> IsLost(n))
  {
    if s.mode.Function? {
      EndNote(n, 0, names);
      NotesOne(n, EndFunction(0), names);
      NotesOne(Note(n, EndFunction(0), names), EndCompilationUnit(0), names);
      NotesBoth(n, [EndFunction(0)], [EndCompilationUnit(0)], names);
      assert [EndFunction(0)] + [EndCompilationUnit(0)] == Finish(s);
    } else if s.mode == Unit {
      NotesOne(n, EndCompilationUnit(0), names);
    }
  }

  /** A name that is noted is empty exactly if an entry says so. */
  lemma EmptyIsNoted(section: Section, entries: seq<Entry>, names: Names)
    requires KeepsNames(names) && forall j | 0 <= j < |entries| :: entries[j].value < ADDRESS_LIMIT
    ensures AllInRange(Trace(section, entries))
    ensures HasEmpty(NotesFrom(BLANK, Trace(section, entries), names).functions) <==> StopsSomewhere(section, entries)
  {
    var k := |entries|;
    var s, before := StateAt(section, entries, k), EventsUpTo(section, entries, k);
    NotesUpTo(section, entries, k, names);
    TraceIsBoth(section, entries, k);
    FinishNotes(NotesFrom(BLANK, before, names), s, UnitBase(section, entries, k), names);
    NotesBoth(BLANK, before, Finish(s), names);
  }

  /** The program stops at a function without a name exactly if an entry starts one without a name, or with one that begins
      with a colon, and not below its unit. */
  lemma StopsIffEntry(section: Section, entries: seq<Entry>, names: Names, sorted: seq<Function>, order: seq<int>)
    requires KeepsNames(names) && forall j | 0 <= j < |entries| :: entries[j].value < ADDRESS_LIMIT
    requires AllInRange(Trace(section, entries)) && AreFinal(sorted, NotesFrom(BLANK, Trace(section, entries), names), order)
    ensures HasUnnamed(sorted) <==> StopsSomewhere(section, entries)
  {
    EmptyIsNoted(section, entries, names);
    FinalHasEmpty(sorted, NotesFrom(BLANK, Trace(section, entries), names), order);
  }

  lemma FinalHasEmpty(sorted: seq<Function>, n: Notes, order: seq<int>)
    requires AreFinal(sorted, n, order)
    ensures HasUnnamed(sorted) <==> HasEmpty(n.functions)
  {
    forall p | 0 <= p < |sorted| ensures sorted[p].name == n.functions[order[p]].name {
      assert IsFinalOf(sorted[p], n.functions[order[p]], n.boundaries);
    }
    if HasEmpty(n.functions) {
      var k :| 0 <= k < |n.functions| && n.functions[k].name == "";
      assert k in order;
      var p :| 0 <= p < |order| && order[p] == k;
      assert sorted[p] in sorted;
    }
  }

  /** Reading the bytes of any section stops the program just so. */
  lemma ReadingStopsIff(stab: seq<Byte>, strings: seq<Byte>, bigEndian: bool, valueSize: nat, unitized: bool, names: Names,
                        sorted: seq<Function>, order: seq<int>)
    requires KeepsNames(names) && valueSize in {4, 8} && AllInRange(Told(stab, strings, bigEndian, valueSize, unitized))
    requires AreFinal(sorted, NotesFrom(BLANK, Told(stab, strings, bigEndian, valueSize, unitized), names), order)
    ensures HasUnnamed(sorted) <==> StopsSomewhere(Section(strings, unitized), Entries(stab, bigEndian, valueSize))
  {
    hide AreFinal;
    EntryValuesFit(stab, bigEndian, valueSize);
    StopsIffEntry(Section(strings, unitized), Entries(stab, bigEndian, valueSize), names, sorted, order);
  }

  // ---- A section that stops the program

  const A_NAME: seq<Byte> := ['a' as int, 0]
  const NAMELESS: seq<Entry> := [Entry(0, N_SO, 0, 0, 16), Entry(1, N_FUN, 0, 0, 16)]

  lemma NamelessStops()
    ensures StopsAt(Section(A_NAME, false), NAMELESS, 1)
  {
    var section := Section(A_NAME, false);
    NamesOfA(section);
    UnitCalledA(section, NAMELESS[0]);
    assert StateAt(section, NAMELESS, 0) == START;
    assert StateAt(section, NAMELESS, 1) == State(Unit, 0, [], 0, 0);
    assert UnitBase(section, NAMELESS, 1) == 16;
  }

  /** A unit with a function whose name is empty, read from its bytes: the assertion of AddFunction fails. */
  method StopsTheProgram(names: Names, target: Module, bigEndian: bool, valueSize: nat) returns (ok: bool)
    requires KeepsNames(names) && valueSize in {4, 8}
    modifies target
    ensures !ok
  {
    hide StopsAt, AreFinal, IsWhole;
    var stab := SectionBytes(NAMELESS, bigEndian, valueSize);
    ghost var sorted, order;
    ok, sorted, order := ReadStabs(stab, A_NAME, bigEndian, valueSize, false, names, target);
    NamelessIsRead(bigEndian, valueSize);
    ReadingStopsIff(stab, A_NAME, bigEndian, valueSize, false, names, sorted, order);
  }

  lemma NamelessIsRead(bigEndian: bool, valueSize: nat)
    requires valueSize in {4, 8}
    ensures Entries(SectionBytes(NAMELESS, bigEndian, valueSize), bigEndian, valueSize) == NAMELESS
    ensures StopsAt(Section(A_NAME, false), NAMELESS, 1)
  {
    Limits();
    assert Limit(2) == 0x1_0000;
    EntriesOfSection(NAMELESS, bigEndian, valueSize);
    NamelessStops();
  }
}
