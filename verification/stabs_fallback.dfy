/** The size that functions get for which no end is known: how often that happens. */
module StabsFallback {
  import opened Addresses
  import opened Bytes
  import opened ModuleFunctions
  import opened Options
  import opened Sorting
  import opened StabsEntries
  import opened StabsHeard
  import opened StabsNameless
  import opened StabsPipeline
  import opened StabsToModules
  import opened StabsTrace
  import opened Symbols

  /** No event gives an address behind `a`. */
  ghost predicate IsHighest(events: seq<Event>, a: int) {
    forall k, x | 0 <= k < |events| && Marks(events[k], x) :: x <= a
  }

  lemma HighestIsLast(events: seq<Event>, names: Names, a: Address)
    requires AllInRange(events)
    ensures IsLast(NotesFrom(BLANK, events, names).boundaries, a) <==> IsHighest(events, a)
  {
    var bs := NotesFrom(BLANK, events, names).boundaries;
    if IsLast(bs, a) {
      forall k, x | 0 <= k < |events| && Marks(events[k], x) ensures x <= a {
        assert InRange(events[k]);
        BoundariesAreMarks(events, names, x);
      }
    }
    if IsHighest(events, a) {
      forall x | x in bs ensures x <= a {
        BoundariesAreMarks(events, names, x);
        var k :| 0 <= k < |events| && Marks(events[k], x);
      }
    }
  }

  /** At most one function has no boundary behind it, and so gets the fallback size. */
  ghost predicate FallsBackOnce(functions: seq<Function>, bs: seq<Address>) {
    forall p, q | 0 <= p < |functions| && 0 <= q < |functions| && IsLast(bs, functions[p].address)
                  && IsLast(bs, functions[q].address) :: p == q
  }

  /** At most one function is told that starts at the greatest address. */
  ghost predicate OneAtTheTop(events: seq<Event>, names: Names)
    requires AllInRange(events)
  {
    forall j, f, l, g | ToldBy(events, names, j, f) && ToldBy(events, names, l, g)
                        && IsHighest(events, f.address) && IsHighest(events, g.address) :: j == l
  }

  ghost predicate OneNoted(n: Notes) {
    forall k, l | 0 <= k < |n.functions| && 0 <= l < |n.functions| && IsLast(n.boundaries, n.functions[k].address)
                  && IsLast(n.boundaries, n.functions[l].address) :: k == l
  }

  lemma NotedOnce(events: seq<Event>, names: Names)
    requires AllInRange(events) && Follows(Outside, events).Some?
    ensures OneNoted(NotesFrom(BLANK, events, names)) <==> OneAtTheTop(events, names)
  {
    var n := NotesFrom(BLANK, events, names);
    var ends := EachIsKept(events, names);
    if OneNoted(n) {
      forall j, f, l, g | ToldBy(events, names, j, f) && ToldBy(events, names, l, g)
                          && IsHighest(events, f.address) && IsHighest(events, g.address) ensures j == l
      {
        var p := NotedAt(events, names, ends, j, f);
        var q := NotedAt(events, names, ends, l, g);
        HighestIsLast(events, names, f.address);
        HighestIsLast(events, names, g.address);
      }
    }
    if OneAtTheTop(events, names) {
      forall k, l | 0 <= k < |ends| && 0 <= l < |ends| && IsLast(n.boundaries, n.functions[k].address)
                    && IsLast(n.boundaries, n.functions[l].address) ensures k == l
      {
        HighestIsLast(events, names, n.functions[k].address);
        HighestIsLast(events, names, n.functions[l].address);
        assert ToldBy(events, names, ends[k], n.functions[k]) && ToldBy(events, names, ends[l], n.functions[l]);
        assert ends[k] == ends[l];
      }
    }
  }

  lemma NotedAt(events: seq<Event>, names: Names, ends: seq<int>, j: int, f: Kept) returns (k: nat)
    requires AllInRange(events) && AreEnds(Tellings(events, names), NotesFrom(BLANK, events, names).functions, ends)
    requires ToldBy(events, names, j, f)
    ensures k < |ends| && ends[k] == j && NotesFrom(BLANK, events, names).functions[k] == f
  {
    assert (j, f) in Tellings(events, names);
    k :| 0 <= k < |ends| && ends[k] == j;
    assert (ends[k], NotesFrom(BLANK, events, names).functions[k]) in Tellings(events, names);
    ToldOnce(events, names, j, f, NotesFrom(BLANK, events, names).functions[k]);
  }

  lemma FinalOnce(sorted: seq<Function>, n: Notes, order: seq<int>)
    requires AreFinal(sorted, n, order)
    ensures FallsBackOnce(sorted, n.boundaries) <==> OneNoted(n)
  {
    forall p | 0 <= p < |sorted| ensures sorted[p].address == n.functions[order[p]].address {
      assert IsFinalOf(sorted[p], n.functions[order[p]], n.boundaries);
    }
    if FallsBackOnce(sorted, n.boundaries) {
      forall k, l | 0 <= k < |n.functions| && 0 <= l < |n.functions| && IsLast(n.boundaries, n.functions[k].address)
                    && IsLast(n.boundaries, n.functions[l].address) ensures k == l
      {
        assert k in order && l in order;
        var p :| 0 <= p < |order| && order[p] == k;
        var q :| 0 <= q < |order| && order[q] == l;
      }
    }
  }

  /** The fallback size is given at most once exactly if at most one function told starts at the greatest address of which
      the section speaks. */
  lemma FallsBackOnceIff(events: seq<Event>, names: Names, sorted: seq<Function>, order: seq<int>)
    requires AllInRange(events) && Follows(Outside, events).Some?
    requires AreFinal(sorted, NotesFrom(BLANK, events, names), order)
    ensures FallsBackOnce(sorted, NotesFrom(BLANK, events, names).boundaries) <==> OneAtTheTop(events, names)
  {
    NotedOnce(events, names);
    FinalOnce(sorted, NotesFrom(BLANK, events, names), order);
  }

  // ---- A section with two functions at its greatest address

  const TWO_NAMES := Section(['a' as int, 0, 'b' as int, 0], false)
  const TWO_FUNCTIONS: seq<Entry> := [Entry(0, N_SO, 0, 0, 16), Entry(0, N_FUN, 0, 0, 16), Entry(2, N_FUN, 0, 0, 16)]
  const TWO_TOLD: seq<Event> :=
    [StartCompilationUnit(0, 16, None), StartFunction(['a' as int], 16), EndFunction(16), StartFunction(['b' as int], 16),
     EndFunction(0), EndCompilationUnit(0)]

  lemma NamesAreAAndB(section: Section)
    requires section.strings == ['a' as int, 0, 'b' as int, 0]
    ensures section.Characters(0) == ['a' as int] && section.Characters(2) == ['b' as int] && !section.IsDirectory(0)
    ensures forall e: Entry | e.nameOffset < 4 :: section.NameOf(e, 0) == e.nameOffset
    ensures forall e: Entry, i: nat | e.nameOffset < 4 :: section.Warnings(e, 0, i) == []
  {
    assert section.Characters(1) == [] && section.Characters(3) == [];
    assert section.Characters(0) == [section.strings[0]] + section.Characters(1);
    assert section.Characters(2) == [section.strings[2]] + section.Characters(3);
    forall e: Entry | e.nameOffset < 4 ensures section.NameOf(e, 0) == e.nameOffset {
      assert (0 + e.nameOffset) % SIZE_LIMIT == e.nameOffset;
    }
  }

  lemma TwoAreTold()
    ensures TWO_NAMES.Valid() && Trace(TWO_NAMES, TWO_FUNCTIONS) == TWO_TOLD
  {
    NamesAreAAndB(TWO_NAMES);
    var section, entries := TWO_NAMES, TWO_FUNCTIONS;
    var unit := State(Unit, 0, [], 0, 0);
    var start := StartCompilationUnit(0, 16, None);
    assert StepName(section, START, entries[0], 0, None).1 == [] + [start];
    assert Step(section, START, entries[0], 0).1 == [start];
    RestIs(section, START, entries, 0, unit, [start]);
    UnitAtFunction(section, unit, entries, 1);
    var first := unit.(mode := Function(16));
    FunctionAtFunction(section, first, entries, 2);
    UnitAtFunction(section, unit, entries, 2);
    assert UpTo(['a' as int], ':' as int) == ['a' as int] && UpTo(['b' as int], ':' as int) == ['b' as int];
    assert Rest(section, first, entries, 3) == [EndFunction(0), EndCompilationUnit(0)];
  }

  lemma NoteNext(events: seq<Event>, k: nat, before: Notes, after: Notes, names: Names)
    requires AllInRange(events) && k < |events|
    requires NotesFrom(BLANK, events[..k], names) == before && Note(before, events[k], names) == after
    ensures NotesFrom(BLANK, events[..k + 1], names) == after
  {
    assert events[..k + 1][..k] == events[..k];
  }

  ghost predicate AreTwoNoted(n: Notes, a: string, b: string) {
    n.functions == [Kept(a, 16, []), Kept(b, 16, [])] && n.boundaries == [16, 16, 16, 16]
  }

  lemma FirstIsNoted(t: seq<Event>, names: Names, a: string)
    requires |t| >= 3 && AllInRange(t) && t[0] == StartCompilationUnit(0, 16, None)
    requires t[1] == StartFunction(['a' as int], 16) && t[2] == EndFunction(16) && a == names.demangle(['a' as int])
    ensures NotesFrom(BLANK, t[..3], names) == Notes([Kept(a, 16, [])], None, 16, [16, 16, 16])
  {
    var n1, n2 := Notes([], None, 16, [16]), Notes([], Some(Kept(a, 16, [])), 16, [16, 16]);
    NoteNext(t, 0, BLANK, n1, names);
    NoteNext(t, 1, n1, n2, names);
    NoteNext(t, 2, n2, Notes([Kept(a, 16, [])], None, 16, [16, 16, 16]), names);
  }

  lemma SecondIsNoted(t: seq<Event>, names: Names, a: string, b: string)
    requires |t| == 6 && AllInRange(t) && t[3] == StartFunction(['b' as int], 16) && t[4] == EndFunction(0)
    requires t[5] == EndCompilationUnit(0) && b == names.demangle(['b' as int])
    requires NotesFrom(BLANK, t[..3], names) == Notes([Kept(a, 16, [])], None, 16, [16, 16, 16])
    ensures AreTwoNoted(NotesFrom(BLANK, t, names), a, b)
  {
    var n4 := Notes([Kept(a, 16, [])], Some(Kept(b, 16, [])), 16, [16, 16, 16, 16]);
    var n5 := Notes([Kept(a, 16, []), Kept(b, 16, [])], None, 16, [16, 16, 16, 16]);
    NoteNext(t, 3, Notes([Kept(a, 16, [])], None, 16, [16, 16, 16]), n4, names);
    NoteNext(t, 4, n4, n5, names);
    NoteNext(t, 5, n5, n5.(base := 0), names);
    assert t[..6] == t;
  }

  lemma TwoAreNoted(names: Names)
    ensures Follows(Outside, TWO_TOLD) == Some(Outside) && AllInRange(TWO_TOLD)
    ensures AreTwoNoted(NotesFrom(BLANK, TWO_TOLD, names), names.demangle(['a' as int]), names.demangle(['b' as int]))
  {
    TwoAreInOrder(TWO_TOLD);
    FirstIsNoted(TWO_TOLD, names, names.demangle(['a' as int]));
    SecondIsNoted(TWO_TOLD, names, names.demangle(['a' as int]), names.demangle(['b' as int]));
  }

  predicate AreDifferent(names: Names) {
    var a, b := names.demangle(['a' as int]), names.demangle(['b' as int]);
    a != b && a != "" && b != ""
  }

  /** Reading the bytes of that section: both functions get the fallback size, and both are in the module. */
  method FallsBackTwice(names: Names, target: Module, bigEndian: bool, valueSize: nat)
    returns (ok: bool, ghost sorted: seq<Function>)
    requires target.functions == map[] && AreDifferent(names) && valueSize in {4, 8}
    modifies target
    ensures ok && |target.functions| == |sorted| == 2
    ensures forall f | f in sorted :: f.size == FALLBACK_SIZE && KeyOf(f) in target.functions
  {
    TwoAreBytes(bigEndian, valueSize);
    ghost var order;
    ok, sorted, order := ReadStabs(SectionBytes(TWO_FUNCTIONS, bigEndian, valueSize), TWO_NAMES.strings, bigEndian, valueSize,
                                   false, names, target);
    TwoFallBack(Trace(TWO_NAMES, TWO_FUNCTIONS), names, sorted, order);
  }

  lemma TwoAreBytes(bigEndian: bool, valueSize: nat)
    requires valueSize in {4, 8}
    ensures TWO_NAMES.Valid()
    ensures Told(SectionBytes(TWO_FUNCTIONS, bigEndian, valueSize), TWO_NAMES.strings, bigEndian, valueSize, false)
         == Trace(TWO_NAMES, TWO_FUNCTIONS)
    ensures AllInRange(Trace(TWO_NAMES, TWO_FUNCTIONS))
  {
    Limits();
    assert Limit(2) == 0x1_0000;
    EntriesOfSection(TWO_FUNCTIONS, bigEndian, valueSize);
    TwoAreInOrder(Trace(TWO_NAMES, TWO_FUNCTIONS));
    TwoAreTold();
  }

  lemma TwoAreInOrder(events: seq<Event>)
    requires events == Trace(TWO_NAMES, TWO_FUNCTIONS) || events == TWO_TOLD
    ensures Follows(Outside, events) == Some(Outside) && AllInRange(events)
  {
    TraceIsInOrder(TWO_NAMES, TWO_FUNCTIONS);
    TwoAreTold();
  }

  lemma TwoFallBack(events: seq<Event>, names: Names, sorted: seq<Function>, order: seq<int>)
    requires events == Trace(TWO_NAMES, TWO_FUNCTIONS) && AllInRange(events) && AreDifferent(names)
    requires AreFinal(sorted, NotesFrom(BLANK, events, names), order)
    ensures |sorted| == 2 && |EnterAll(map[], KeysOf(sorted), sorted)| == 2
    ensures forall f | f in sorted ::
              f.size == FALLBACK_SIZE && f.name != "" && KeyOf(f) in EnterAll(map[], KeysOf(sorted), sorted)
  {
    TwoAreTold();
    TwoAreNoted(names);
    TwoAreEntered(sorted, NotesFrom(BLANK, events, names), order);
  }

  lemma TwoAreEntered(sorted: seq<Function>, n: Notes, order: seq<int>)
    requires AreFinal(sorted, n, order) && |n.functions| == 2 && n.functions[0].name != n.functions[1].name
    requires forall k | 0 <= k < 2 :: n.functions[k].address == 16 && n.functions[k].name != ""
    requires n.boundaries == [16, 16, 16, 16]
    ensures |sorted| == 2 && |EnterAll(map[], KeysOf(sorted), sorted)| == 2
    ensures forall f | f in sorted ::
              f.size == FALLBACK_SIZE && f.name != "" && KeyOf(f) in EnterAll(map[], KeysOf(sorted), sorted)
  {
    hide AreFinal, EnterAll;
    TwoAreFinal(sorted, n, order);
    FirstIsEntered(map[], KeysOf(sorted), sorted);
    TwoKeys(EnterAll(map[], KeysOf(sorted), sorted), KeyOf(sorted[0]), KeyOf(sorted[1]));
  }

  lemma TwoAreFinal(sorted: seq<Function>, n: Notes, order: seq<int>)
    requires AreFinal(sorted, n, order) && |n.functions| == 2 && n.functions[0].name != n.functions[1].name
    requires forall k | 0 <= k < 2 :: n.functions[k].address == 16 && n.functions[k].name != ""
    requires n.boundaries == [16, 16, 16, 16]
    ensures |sorted| == 2 && KeyOf(sorted[0]) != KeyOf(sorted[1])
    ensures forall f | f in sorted :: f.size == FALLBACK_SIZE && f.name != ""
  {
    forall p | 0 <= p < 2 ensures IsFinalOf(sorted[p], n.functions[order[p]], n.boundaries) && order[p] in {0, 1} {
    }
    assert order[0] != order[1];
  }

  lemma TwoKeys<V>(m: map<Key, V>, k: Key, l: Key)
    requires k != l && forall x :: x in m <==> x == k || x == l
    ensures |m| == 2
  {
    assert m.Keys == {k, l};
  }
}
