/** StabsReader: nested loops over one iterator, which tell a handler what the section says. */
module StabsReaders {
  import opened Bytes
  import opened Options
  import opened StabsEntries
  import opened StabsTrace

  /** Nothing told so far was refused. */
  ghost predicate AllAccepted(verdict: seq<Event> -> bool, trace: seq<Event>) {
    forall k | 0 <= k < |trace| && !trace[k].Warning? :: verdict(trace[..k + 1])
  }

  /** The last event told was the first to be refused. */
  ghost predicate JustRefused(verdict: seq<Event> -> bool, trace: seq<Event>) {
    && trace != [] && !trace[|trace| - 1].Warning? && !verdict(trace)
    && AllAccepted(verdict, trace[..|trace| - 1])
  }

  lemma ToldOneMore(verdict: seq<Event> -> bool, trace: seq<Event>, e: Event)
    requires AllAccepted(verdict, trace)
    ensures if e.Warning? || verdict(trace + [e]) then AllAccepted(verdict, trace + [e])
            else JustRefused(verdict, trace + [e])
  {
    var more := trace + [e];
    assert more[..|trace|] == trace && more[..|trace| + 1] == more;
    forall k | 0 <= k < |trace| && !more[k].Warning? ensures verdict(more[..k + 1]) {
      assert more[..k + 1] == trace[..k + 1];
    }
  }

  /** Any handler at all: what it says to an event may depend on everything it has been told. */
  class Handler {
    const verdict: seq<Event> -> bool
    var trace: seq<Event>

    constructor (verdict: seq<Event> -> bool)
      ensures this.verdict == verdict && trace == []
    {
      this.verdict, trace := verdict, [];
    }

    method Tell(e: Event) returns (ok: bool)
      modifies this
      ensures trace == old(trace) + [e] && ok == verdict(trace)
    {
      trace := trace + [e];
      ok := verdict(trace);
    }
  }

  class StabsReader {
    const section: Section
    const entries: EntryIterator
    const handler: Handler
    var stringOffset: nat
    var nextCuStringOffset: nat
    var currentSourceFile: Name
    var queuedLines: seq<Queued>
    /** All that the section says, and what it says from here on. */
    ghost const total: seq<Event>
    ghost var rest: seq<Event>

    ghost predicate Valid()
      reads this, handler, entries, entries.cursor
    {
      && section.Valid() && entries.Valid()
      && handler.trace + rest == total
      && AllAccepted(handler.verdict, handler.trace)
    }

    ghost function Now(mode: Mode): State
      reads this
    {
      State(mode, currentSourceFile, queuedLines, stringOffset, nextCuStringOffset)
    }

    ghost predicate Stands(mode: Mode)
      reads this, entries, entries.cursor
    {
      entries.Valid() && rest == Rest(section, Now(mode), entries.All(), entries.index)
    }

    /** The handler has refused an event of the section. */
    ghost predicate Aborted()
      reads this, handler, entries, entries.cursor
    {
      && handler.trace <= total
      && JustRefused(handler.verdict, handler.trace)
    }

    constructor (stab: seq<Byte>, strings: seq<Byte>, bigEndian: bool, valueSize: nat, unitized: bool, handler: Handler)
      requires Section(strings, unitized).Valid() && valueSize in {4, 8} && handler.trace == []
      ensures Valid() && Stands(Between) && this.handler == handler && section == Section(strings, unitized)
      ensures entries.All() == Entries(stab, bigEndian, valueSize) && entries.index == 0
      ensures total == Trace(section, entries.All())
      ensures fresh(entries) && fresh(entries.cursor)
    {
      section := Section(strings, unitized);
      total := Trace(Section(strings, unitized), Entries(stab, bigEndian, valueSize));
      entries := new EntryIterator(stab, bigEndian, valueSize);
      this.handler := handler;
      stringOffset, nextCuStringOffset, currentSourceFile, queuedLines := 0, 0, 0, [];
      new;
      rest := total;
    }

    /** Tell the handler the next thing the section says. */
    method Report(e: Event) returns (ok: bool)
      requires Valid() && rest != [] && rest[0] == e && !e.Warning?
      modifies `rest, handler
      ensures rest == old(rest)[1..]
      ensures if ok then Valid() else Aborted()
    {
      ToldOneMore(handler.verdict, handler.trace, e);
      ok := handler.Tell(e);
      rest := rest[1..];
      assert handler.trace + rest == old(handler.trace) + old(rest);
    }

    method SymbolString() returns (name: Name)
      requires Valid() && !entries.atEnd && section.Warnings(entries.entry, stringOffset, entries.index) <= rest
      modifies `rest, handler
      ensures Valid() && name == section.NameOf(entries.entry, stringOffset)
      ensures rest == old(rest)[|section.Warnings(entries.entry, stringOffset, entries.index)|..]
    {
      var offset := (stringOffset + entries.entry.nameOffset) % SIZE_LIMIT;
      if offset >= |section.strings| {
        ToldOneMore(handler.verdict, handler.trace, Warning(entries.index));
        var _ := handler.Tell(Warning(entries.index));
        rest := rest[1..];
        offset := 0;
        assert handler.trace + rest == old(handler.trace) + old(rest);
      }
      return offset;
    }

    // ---- Functions

    method ProcessFunction() returns (ok: bool)
      requires Valid() && Stands(Unit) && !entries.atEnd && entries.entry.kind == N_FUN
      modifies this, handler, entries, entries.cursor
      ensures if ok then Valid() && Stands(Unit) else Aborted()
      ensures ok ==> entries.index > old(entries.index)
    {
      var functionAddress := entries.entry.value;
      ok := BeginFunction();
      if !ok { return; }
      entries.Next();
      ok := ReportQueuedLines(functionAddress);
      if !ok { return; }
      ok := FunctionBody(functionAddress);
      if !ok { return; }
      ok := EndFunctionHere(functionAddress);
    }

    method BeginFunction() returns (ok: bool)
      requires Valid() && Stands(Unit) && !entries.atEnd && entries.entry.kind == N_FUN
      modifies `rest, handler
      ensures if ok then Valid() else Aborted()
      ensures ok ==> rest == LinesOf(queuedLines) + Rest(section, Now(Function(entries.entry.value)).(queued := []),
                                                         entries.All(), entries.index + 1)
    {
      UnitAtFunction(section, Now(Unit), entries.All(), entries.index);
      var stabString := SymbolString();
      var name := UpTo(section.Characters(stabString), ':' as int);
      ok := Report(StartFunction(name, entries.entry.value));
    }

    /** The loop over a function's entries. */
    method FunctionBody(functionAddress: nat) returns (ok: bool)
      requires Valid() && Stands(Function(functionAddress))
      modifies this, handler, entries, entries.cursor
      ensures if ok then Valid() && Stands(Function(functionAddress)) else Aborted()
      ensures ok ==> entries.index >= old(entries.index)
      ensures ok ==> entries.atEnd || entries.entry.kind == N_SO || entries.entry.kind == N_FUN
    {
      ok := true;
      while !entries.atEnd && entries.entry.kind != N_SO && entries.entry.kind != N_FUN
        invariant Valid() && Stands(Function(functionAddress)) && entries.index >= old(entries.index)
        decreases |entries.All()| - entries.index
      {
        ok := FunctionEntry(functionAddress);
        if !ok { return; }
      }
    }

    method FunctionEntry(functionAddress: nat) returns (ok: bool)
      requires Valid() && Stands(Function(functionAddress)) && !entries.atEnd
      requires entries.entry.kind != N_SO && entries.entry.kind != N_FUN
      modifies this, handler, entries, entries.cursor
      ensures if ok then Valid() && Stands(Function(functionAddress)) else Aborted()
      ensures ok ==> entries.index == old(entries.index) + 1
    {
      ok := true;
      if entries.entry.kind == N_SLINE {
        ok := ReportLine(functionAddress);
        if !ok { return; }
      } else if entries.entry.kind == N_SOL {
        currentSourceFile := SymbolString();
      }
      entries.Next();
    }

    method ReportLine(functionAddress: nat) returns (ok: bool)
      requires Valid() && Stands(Function(functionAddress)) && !entries.atEnd && entries.entry.kind == N_SLINE
      modifies `rest, handler
      ensures if ok then Valid() else Aborted()
      ensures ok ==> rest == Rest(section, Now(Function(functionAddress)), entries.All(), entries.index + 1)
    {
      var lineAddress := (functionAddress + entries.entry.value) % SIZE_LIMIT;
      ok := Report(Line(lineAddress, currentSourceFile, entries.entry.descriptor));
    }

    method ReportQueuedLines(start: nat) returns (ok: bool)
      requires Valid()
      requires rest == LinesOf(queuedLines)
                       + Rest(section, Now(Function(start)).(queued := []), entries.All(), entries.index)
      modifies `rest, `queuedLines, handler
      ensures if ok then Valid() && Stands(Function(start)) else Aborted()
    {
      ghost var after := Rest(section, Now(Function(start)).(queued := []), entries.All(), entries.index);
      for k := 0 to |queuedLines|
        invariant queuedLines == old(queuedLines) && Valid() && rest == LinesOf(queuedLines)[k..] + after
      {
        var line := queuedLines[k];
        LineAt(queuedLines, k);
        ok := Report(Line(line.address, line.name, line.number));
        if !ok { return; }
      }
      queuedLines := [];
      ok := true;
    }

    method EndFunctionHere(functionAddress: nat) returns (ok: bool)
      requires Valid() && Stands(Function(functionAddress))
      requires entries.atEnd || entries.entry.kind == N_SO || entries.entry.kind == N_FUN
      modifies this, handler, entries, entries.cursor
      ensures if ok then Valid() && Stands(Unit) else Aborted()
      ensures entries.index >= old(entries.index)
    {
      if !entries.atEnd && entries.entry.kind == N_FUN {
        ok := EndFunctionAtFunction(functionAddress);
      } else {
        var endingAddress := if entries.atEnd then 0 else entries.entry.value;
        ok := Report(EndFunction(endingAddress));
      }
    }

    method EndFunctionAtFunction(functionAddress: nat) returns (ok: bool)
      requires Valid() && Stands(Function(functionAddress)) && !entries.atEnd && entries.entry.kind == N_FUN
      modifies this, handler, entries, entries.cursor
      ensures if ok then Valid() && Stands(Unit) else Aborted()
      ensures entries.index >= old(entries.index)
    {
      FunctionAtFunction(section, Now(Function(functionAddress)), entries.All(), entries.index);
      var endingAddress := entries.entry.value;
      var name := SymbolString();
      if section.Characters(name) == [] {
        endingAddress := (functionAddress + endingAddress) % SIZE_LIMIT;
        entries.Next();
      }
      assert rest == [EndFunction(endingAddress)] + Rest(section, Now(Unit), entries.All(), entries.index);
      ok := Report(EndFunction(endingAddress));
    }

    // ---- Compilation units

    method ProcessCompilationUnit() returns (ok: bool)
      requires Valid() && Stands(Between) && !entries.atEnd && entries.entry.kind == N_SO
      modifies this, handler, entries, entries.cursor
      ensures if ok then Valid() && Stands(Between) else Aborted()
      ensures ok ==> entries.index > old(entries.index)
    {
      var buildDirectory := DirectoryFirst();
      if entries.atEnd || entries.entry.kind != N_SO { return true; }
      var inside;
      ok, inside := StartUnit(buildDirectory);
      if !ok || !inside { return; }
      ok := UnitBody();
      if !ok { return; }
      ok := EndUnitHere();
    }

    /** An N_SO entry for the directory of the compilation, if there is one. */
    method DirectoryFirst() returns (directory: Option<Name>)
      requires Valid() && Stands(Between) && !entries.atEnd && entries.entry.kind == N_SO
      modifies `rest, handler, entries, entries.cursor
      ensures Valid()
      ensures entries.index == old(entries.index) + if directory.Some? then 1 else 0
      ensures if entries.atEnd || entries.entry.kind != N_SO then directory.Some? && Stands(Between)
              else rest == NameAndRest(section, Now(Between), directory, entries.All(), entries.index)
    {
      BetweenAtUnit(section, Now(Between), entries.All(), entries.index);
      var name := SymbolString();
      if section.IsDirectory(name) {
        entries.Next();
        AfterADirectory(section, Now(Between), name, entries.All(), entries.index);
        return Some(name);
      }
      return None;
    }

    /** An N_SO entry that names the unit, or is a stray end marker. */
    method StartUnit(directory: Option<Name>) returns (ok: bool, inside: bool)
      requires Valid() && !entries.atEnd
      requires rest == NameAndRest(section, Now(Between), directory, entries.All(), entries.index)
      modifies this, handler, entries, entries.cursor
      ensures if ok then Valid() && Stands(if inside then Unit else Between) else Aborted()
      ensures ok ==> entries.index == old(entries.index) + 1
    {
      var name := SymbolString();
      ok, inside := EnterUnit(name, directory);
    }

    method EnterUnit(name: Name, directory: Option<Name>) returns (ok: bool, inside: bool)
      requires Valid() && !entries.atEnd
      requires rest == NamedRest(section, Now(Between), name, directory, entries.All(), entries.index)
      modifies this, handler, entries, entries.cursor
      ensures if ok then Valid() && Stands(if inside then Unit else Between) else Aborted()
      ensures ok ==> entries.index == old(entries.index) + 1
    {
      if section.Characters(name) == [] {
        entries.Next();
        return true, false;
      }
      currentSourceFile := name;
      ok := Report(StartCompilationUnit(currentSourceFile, entries.entry.value, directory));
      inside := true;
      if ok { entries.Next(); }
    }

    /** The loop over a unit's entries, up to the next N_SO. */
    method UnitBody() returns (ok: bool)
      requires Valid() && Stands(Unit)
      modifies this, handler, entries, entries.cursor
      ensures if ok then Valid() && Stands(Unit) else Aborted()
      ensures ok ==> entries.index >= old(entries.index) && (entries.atEnd || entries.entry.kind == N_SO)
    {
      ok := true;
      while !entries.atEnd && entries.entry.kind != N_SO
        invariant Valid() && Stands(Unit) && entries.index >= old(entries.index)
        decreases |entries.All()| - entries.index
      {
        if entries.entry.kind == N_FUN {
          ok := ProcessFunction();
          if !ok { return; }
        } else {
          UnitEntry();
        }
      }
    }

    method UnitEntry()
      requires Valid() && Stands(Unit) && !entries.atEnd && entries.entry.kind != N_SO && entries.entry.kind != N_FUN
      modifies this, handler, entries, entries.cursor
      ensures Valid() && Stands(Unit) && entries.index == old(entries.index) + 1
    {
      if entries.entry.kind == N_SLINE {
        queuedLines := queuedLines + [Queued(entries.entry.value, currentSourceFile, entries.entry.descriptor)];
      } else if entries.entry.kind == N_SOL {
        currentSourceFile := SymbolString();
      }
      entries.Next();
    }

    method EndUnitHere() returns (ok: bool)
      requires Valid() && Stands(Unit) && (entries.atEnd || entries.entry.kind == N_SO)
      modifies this, handler, entries, entries.cursor
      ensures if ok then Valid() && Stands(Between) else Aborted()
      ensures entries.index >= old(entries.index)
    {
      var endingAddress := EndOfUnit();
      ok := Report(EndCompilationUnit(endingAddress));
      if ok { queuedLines := []; }
    }

    method EndOfUnit() returns (endingAddress: nat)
      requires Valid() && Stands(Unit) && (entries.atEnd || entries.entry.kind == N_SO)
      modifies `rest, handler, entries, entries.cursor
      ensures Valid() && entries.index >= old(entries.index)
      ensures rest == [EndCompilationUnit(endingAddress)]
                      + Rest(section, Now(Between).(queued := []), entries.All(), entries.index)
    {
      endingAddress := 0;
      if !entries.atEnd {
        UnitAtUnit(section, Now(Unit), entries.All(), entries.index);
        var name := SymbolString();
        if section.Characters(name) == [] {
          endingAddress := entries.entry.value;
          entries.Next();
        }
      }
    }

    // ---- The section

    method EntryBetween()
      requires Valid() && Stands(Between) && !entries.atEnd && entries.entry.kind != N_SO
      modifies this, entries, entries.cursor
      ensures Valid() && Stands(Between) && entries.index == old(entries.index) + 1
    {
      if entries.entry.kind == N_UNDF && section.unitized {
        stringOffset := nextCuStringOffset;
        nextCuStringOffset := entries.entry.value;
      }
      entries.Next();
    }

    /** With a handler that accepts everything, all that the section says is told; otherwise everything up to and
        with the first event that is refused. */
    method Process() returns (ok: bool)
      requires Valid() && Stands(Between)
      modifies this, handler, entries, entries.cursor
      ensures ok <==> AllAccepted(handler.verdict, total)
      ensures if ok then handler.trace == total && entries.index == |entries.All()| else Aborted()
    {
      ok := true;
      while !entries.atEnd
        invariant Valid() && Stands(Between)
        decreases |entries.All()| - entries.index
      {
        if entries.entry.kind == N_SO {
          ok := ProcessCompilationUnit();
          if !ok {
            RefusedIsNotAccepted(handler.verdict, handler.trace, total);
            return;
          }
        } else {
          EntryBetween();
        }
      }
      assert handler.trace == total;
    }
  }

  lemma RefusedIsNotAccepted(verdict: seq<Event> -> bool, trace: seq<Event>, total: seq<Event>)
    requires JustRefused(verdict, trace) && trace <= total
    ensures !AllAccepted(verdict, total)
  {
    assert total[..|trace| - 1 + 1] == trace;
    assert total[|trace| - 1] == trace[|trace| - 1];
  }

  /** So nothing that a handler is told, whatever it answers, is out of order. */
  lemma ToldInOrder(section: Section, entries: seq<Entry>, told: seq<Event>)
    requires told <= Trace(section, entries)
    ensures Follows(Outside, told).Some?
  {
    TraceIsInOrder(section, entries);
    FollowsPrefix(Outside, Trace(section, entries), |told|);
    assert told == Trace(section, entries)[..|told|];
  }

  lemma {:induction false} LineAt(queued: seq<Queued>, k: nat)
    requires k < |queued|
    ensures LinesOf(queued)[k] == Line(queued[k].address, queued[k].name, queued[k].number)
  {
    if k < |queued| - 1 { LineAt(queued[..|queued| - 1], k); }
  }
}
