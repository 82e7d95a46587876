/** Functions that start without a name: when a section has one. */
module StabsNameless {
  import opened Bytes
  import opened Options
  import opened StabsEntries
  import opened StabsTrace

  /** What is remembered before entry `k`. */
  function StateAt(section: Section, entries: seq<Entry>, k: nat): State
    requires k <= |entries|
  {
    if k == 0 then START else Step(section, StateAt(section, entries, k - 1), entries[k - 1], k - 1).0
  }

  /** In a unit every N_FUN entry starts a function; in a function only one with a name does. */
  predicate StartsFunction(section: Section, s: State, e: Entry) {
    && e.kind == N_FUN
    && (s.mode == Unit || (s.mode.Function? && section.Characters(section.NameOf(e, s.offset)) != []))
  }

  /** Nothing comes before the colon or the end of the entry's name. */
  predicate StartsNameless(section: Section, s: State, e: Entry) {
    var symbol := section.Characters(section.NameOf(e, s.offset));
    StartsFunction(section, s, e) && (symbol == [] || symbol[0] == ':' as int)
  }

  ghost predicate HasNameless(events: seq<Event>) {
    exists k :: 0 <= k < |events| && events[k].StartFunction? && events[k].symbol == []
  }

  lemma HasNamelessBoth(a: seq<Event>, b: seq<Event>)
    ensures HasNameless(a + b) <==> HasNameless(a) || HasNameless(b)
  {
    var ab := a + b;
    if k :| 0 <= k < |a| && a[k].StartFunction? && a[k].symbol == [] { assert ab[k] == a[k]; }
    if k :| 0 <= k < |b| && b[k].StartFunction? && b[k].symbol == [] { assert ab[|a| + k] == b[k]; }
    if k :| 0 <= k < |ab| && ab[k].StartFunction? && ab[k].symbol == [] {
      assert if k < |a| then a[k] == ab[k] else b[k - |a|] == ab[k];
    }
  }

  lemma HasNamelessOne(e: Event)
    ensures HasNameless([e]) <==> e.StartFunction? && e.symbol == []
  {
    if e.StartFunction? && e.symbol == [] { assert [e][0] == e; }
  }

  lemma {:induction false} LinesHaveNone(queued: seq<Queued>)
    ensures !HasNameless(LinesOf(queued))
  {
    if queued != [] {
      var n := |queued| - 1;
      var line := Line(queued[n].address, queued[n].name, queued[n].number);
      LinesHaveNone(queued[..n]);
      HasNamelessBoth(LinesOf(queued[..n]), [line]);
      HasNamelessOne(line);
    }
  }

  lemma NameHasNone(section: Section, s: State, e: Entry, i: nat, directory: Option<Name>)
    ensures !HasNameless(StepName(section, s, e, i, directory).1)
  {
    var warnings := section.Warnings(e, s.offset, i);
    var start := StartCompilationUnit(section.NameOf(e, s.offset), e.value, directory);
    HasNamelessBoth(warnings, [start]);
  }

  lemma BetweenHasNone(section: Section, s: State, e: Entry, i: nat)
    ensures !HasNameless(StepBetween(section, s, e, i).1)
  {
    NameHasNone(section, s, e, i, None);
    HasNamelessBoth(section.Warnings(e, s.offset, i), StepName(section, s, e, i, None).1);
  }

  lemma UnitHasNameless(section: Section, s: State, e: Entry, i: nat)
    requires s.mode == Unit
    ensures HasNameless(StepUnit(section, s, e, i).1) <==> StartsNameless(section, s, e)
  {
    var warnings, symbol := section.Warnings(e, s.offset, i), section.Characters(section.NameOf(e, s.offset));
    var start := StartFunction(UpTo(symbol, ':' as int), e.value);
    var between := s.(mode := Between, queued := []);
    BetweenHasNone(section, between, e, i);
    HasNamelessBoth(warnings, [EndCompilationUnit(e.value)]);
    HasNamelessBoth(warnings, [EndCompilationUnit(0)]);
    HasNamelessBoth(warnings + [EndCompilationUnit(0)], StepBetween(section, between, e, i).1);
    HasNamelessBoth(warnings, [start]);
    HasNamelessOne(start);
    HasNamelessBoth(warnings + [start], LinesOf(s.queued));
    LinesHaveNone(s.queued);
  }

  lemma FunctionHasNameless(section: Section, s: State, e: Entry, i: nat)
    requires s.mode.Function?
    ensures HasNameless(StepFunction(section, s, e, i).1) <==> StartsNameless(section, s, e)
  {
    var warnings, events := section.Warnings(e, s.offset, i), StepUnit(section, s.(mode := Unit), e, i).1;
    UnitHasNameless(section, s.(mode := Unit), e, i);
    HasNamelessBoth([EndFunction(e.value)], events);
    HasNamelessBoth(warnings, [EndFunction((s.mode.start + e.value) % SIZE_LIMIT)]);
    HasNamelessBoth(warnings, [EndFunction(e.value)]);
    HasNamelessBoth(warnings + [EndFunction(e.value)], events);
  }

  lemma StepHasNameless(section: Section, s: State, e: Entry, i: nat)
    ensures HasNameless(Step(section, s, e, i).1) <==> StartsNameless(section, s, e)
  {
    match s.mode
    case Between => BetweenHasNone(section, s, e, i);
    case AfterDirectory(directory) =>
      NameHasNone(section, s, e, i, Some(directory));
      BetweenHasNone(section, s.(mode := Between), e, i);
    case Unit => UnitHasNameless(section, s, e, i);
    case Function(_) => FunctionHasNameless(section, s, e, i);
  }

  ghost predicate NamelessFrom(section: Section, entries: seq<Entry>, i: nat) {
    exists k :: i <= k < |entries| && StartsNameless(section, StateAt(section, entries, k), entries[k])
  }

  lemma NamelessFromNext(section: Section, entries: seq<Entry>, i: nat)
    requires i < |entries|
    ensures NamelessFrom(section, entries, i) <==>
            StartsNameless(section, StateAt(section, entries, i), entries[i]) || NamelessFrom(section, entries, i + 1)
  {
  }

  lemma {:induction false} RestHasNameless(section: Section, entries: seq<Entry>, i: nat)
    requires i <= |entries|
    ensures HasNameless(Rest(section, StateAt(section, entries, i), entries, i)) <==> NamelessFrom(section, entries, i)
    decreases |entries| - i
  {
    if i < |entries| {
      var s := StateAt(section, entries, i);
      var (next, events) := Step(section, s, entries[i], i);
      assert next == StateAt(section, entries, i + 1);
      RestHasNameless(section, entries, i + 1);
      StepHasNameless(section, s, entries[i], i);
      HasNamelessBoth(events, Rest(section, next, entries, i + 1));
      NamelessFromNext(section, entries, i);
    }
  }

  /** A section tells of a function without a name exactly if an N_FUN entry that starts one has no name, or one that
      begins with a colon. */
  lemma NamelessIff(section: Section, entries: seq<Entry>)
    ensures HasNameless(Trace(section, entries)) <==>
            exists k :: 0 <= k < |entries| && StartsNameless(section, StateAt(section, entries, k), entries[k])
  {
    RestHasNameless(section, entries, 0);
  }

  /** A unit called "a", with a function whose name is empty. */
  lemma NamelessExample()
    ensures var section, entries := Section(['a' as int, 0], false), [Entry(0, N_SO, 0, 0, 16), Entry(1, N_FUN, 0, 0, 16)];
            section.Valid() && Trace(section, entries)
              == [StartCompilationUnit(0, 16, None), StartFunction([], 16), EndFunction(0), EndCompilationUnit(0)]
  {
    var section, entries := Section(['a' as int, 0], false), [Entry(0, N_SO, 0, 0, 16), Entry(1, N_FUN, 0, 0, 16)];
    var unit := State(Unit, 0, [], 0, 0);
    NamesOfA(section);
    UnitCalledA(section, entries[0]);
    RestIs(section, START, entries, 0, unit, [StartCompilationUnit(0, 16, None)]);
    UnitAtFunction(section, unit, entries, 1);
    assert Rest(section, unit.(mode := Function(16)), entries, 2) == [EndFunction(0), EndCompilationUnit(0)];
  }

  lemma NamesOfA(section: Section)
    requires section.strings == ['a' as int, 0]
    ensures section.Characters(1) == [] && section.Characters(0) == ['a' as int] && !section.IsDirectory(0)
    ensures forall e: Entry | e.nameOffset < 2 :: section.NameOf(e, 0) == e.nameOffset && section.Warnings(e, 0, 0) == []
  {
    assert section.Characters(0) == [section.strings[0]] + section.Characters(1);
  }

  lemma UnitCalledA(section: Section, e: Entry)
    requires section.strings == ['a' as int, 0] && e.nameOffset == 0 && e.kind == N_SO
    ensures Step(section, START, e, 0) == (State(Unit, 0, [], 0, 0), [StartCompilationUnit(0, e.value, None)])
  {
    NamesOfA(section);
    var start := StartCompilationUnit(0, e.value, None);
    assert StepName(section, START, e, 0, None).1 == [] + [start];
    assert Step(section, START, e, 0).1 == [start];
  }
}
