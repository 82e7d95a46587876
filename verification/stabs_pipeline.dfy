/** From the bytes of a .stab section to the functions of a module. */
module StabsPipeline {
  import opened Addresses
  import opened Bytes
  import opened ModuleFunctions
  import opened Options
  import opened StabsEntries
  import opened StabsHeard
  import opened StabsReaders
  import opened StabsToModules
  import opened StabsTrace
  import opened Symbols

  /** What a section tells. */
  function Told(stab: seq<Byte>, strings: seq<Byte>, bigEndian: bool, valueSize: nat, unitized: bool): seq<Event> {
    Trace(Section(strings, unitized), Entries(stab, bigEndian, valueSize))
  }

  /** Read a section to its end, and finalize: the module gets the first of each address and name among the functions that
      the section tells of, and all of those are whole and, if their addresses differ, apart. */
  method ReadStabs(stab: seq<Byte>, strings: seq<Byte>, bigEndian: bool, valueSize: nat, unitized: bool,
                   names: Names, target: Module)
    returns (ok: bool, ghost sorted: seq<Function>, ghost order: seq<int>)
    requires Section(strings, unitized).Valid() && valueSize in {4, 8}
    modifies target
    ensures var events := Told(stab, strings, bigEndian, valueSize, unitized);
            AllInRange(events) && AreFinal(sorted, NotesFrom(BLANK, events, names), order)
            && forall p | 0 <= p < |sorted| :: IsWhole(sorted[p], NotesFrom(BLANK, events, names).boundaries)
    ensures forall p, q | 0 <= p < |sorted| && 0 <= q < |sorted| && sorted[p].address < sorted[q].address ::
              sorted[p].End() <= sorted[q].address
    ensures ok <==> forall f | f in sorted :: f.name != ""
    ensures ok ==> target.functions == EnterAll(old(target.functions), KeysOf(sorted), sorted)
  {
    var events := ReadAll(stab, strings, bigEndian, valueSize, unitized);
    var m := new StabsToModule(names, target);
    ok, sorted, order := AddSection(m, events);
    FinalFunctions(sorted, NotesFrom(BLANK, events, names), order);
  }

  /** The handler accepts whatever it is told. */
  method ReadAll(stab: seq<Byte>, strings: seq<Byte>, bigEndian: bool, valueSize: nat, unitized: bool)
    returns (events: seq<Event>)
    requires Section(strings, unitized).Valid() && valueSize in {4, 8}
    ensures events == Told(stab, strings, bigEndian, valueSize, unitized)
    ensures Follows(Outside, events) == Some(Outside) && AllInRange(events)
  {
    var handler := new Handler((trace: seq<Event>) => true);
    var reader := new StabsReader(stab, strings, bigEndian, valueSize, unitized, handler);
    var ok := reader.Process();
    events := handler.trace;
    SectionCanBeHeard(Section(strings, unitized), stab, bigEndian, valueSize);
  }

  /** The program stops at a function without a name exactly if one is told of whose symbol is demangled to nothing. */
  lemma StopsIff(events: seq<Event>, names: Names, sorted: seq<Function>, order: seq<int>)
    requires AllInRange(events) && Follows(Outside, events).Some?
    requires AreFinal(sorted, NotesFrom(BLANK, events, names), order)
    ensures (forall f | f in sorted :: f.name != "") <==> forall j, f | ToldBy(events, names, j, f) :: f.name != ""
  {
    var n := NotesFrom(BLANK, events, names);
    forall p | 0 <= p < |sorted| ensures sorted[p].name == n.functions[order[p]].name {
      assert IsFinalOf(sorted[p], n.functions[order[p]], n.boundaries);
    }
    if forall f | f in sorted :: f.name != "" {
      forall j, f | ToldBy(events, names, j, f) ensures f.name != "" {
        KeptIffTold(events, names, f);
        var k :| 0 <= k < |n.functions| && n.functions[k] == f;
        assert k in order;
        var p :| 0 <= p < |order| && order[p] == k;
        assert sorted[p] in sorted;
      }
    }
    if forall j, f | ToldBy(events, names, j, f) :: f.name != "" {
      forall f | f in sorted ensures f.name != "" {
        var p :| 0 <= p < |sorted| && sorted[p] == f;
        KeptIffTold(events, names, n.functions[order[p]]);
      }
    }
  }
}
