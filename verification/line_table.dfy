/** DwarfLineToModule::AddLine: which line records are kept, and as what. */
module LineTable {
  import opened Addresses
  import opened Symbols
  import opened Intervals

  /** One call of AddLine; `file` is absent when the file number is not in the file table. */
  datatype Call = Call(address: Address, length: Address, file: FileTableEntry, number: int)
  datatype FileTableEntry = NoFile | File(id: FileId)

  /** The length, clipped so as not to pass the end of the address space. */
  function Clipped(c: Call): (n: Address)
    ensures c.length > 0 ==> n > 0 && c.address + n <= ADDRESS_LIMIT
    ensures c.address + c.length <= ADDRESS_LIMIT ==> n == c.length
  {
    if c.address + c.length > ADDRESS_LIMIT then ADDRESS_LIMIT - c.address else c.length
  }

  class DwarfLineToModule {
    var lines: seq<Line>
    var omittedLineEnd: Address
    var warnedBadFileNumber: bool

    constructor (lines: seq<Line>)
      ensures this.lines == lines && omittedLineEnd == 0 && !warnedBadFileNumber
    {
      this.lines := lines;
      omittedLineEnd := 0;
      warnedBadFileNumber := false;
    }

    method AddLine(c: Call)
      modifies this
      ensures omittedLineEnd == NextOmittedEnd(old(omittedLineEnd), c)
      ensures lines == old(lines) + (if Keeps(old(omittedLineEnd), c) then [Kept(c)] else [])
      ensures warnedBadFileNumber ==
              (old(warnedBadFileNumber) || (c.length != 0 && !Omits(old(omittedLineEnd), c) && c.file.NoFile?))
    {
      if c.length == 0 {
        return;
      }
      var length := c.length;
      if Add(c.address, length) < c.address {
        length := Sub(0, c.address);
      }
      if c.address == 0 || c.address == omittedLineEnd {
        omittedLineEnd := Add(c.address, length);
        return;
      }
      omittedLineEnd := 0;
      if c.file.NoFile? {
        warnedBadFileNumber := true;
        return;
      }
      lines := lines + [Line(c.address, length, c.file.id, c.number)];
    }
  }

  predicate Omits(omittedLineEnd: Address, c: Call) {
    c.length != 0 && (c.address == 0 || c.address == omittedLineEnd)
  }

  predicate Keeps(omittedLineEnd: Address, c: Call) {
    c.length != 0 && !Omits(omittedLineEnd, c) && c.file.File?
  }

  function Kept(c: Call): Line
    requires c.file.File?
  {
    Line(c.address, Clipped(c), c.file.id, c.number)
  }

  function NextOmittedEnd(omittedLineEnd: Address, c: Call): Address {
    if c.length == 0 then omittedLineEnd
    else if Omits(omittedLineEnd, c) then Add(c.address, Clipped(c))
    else 0
  }

  /** The value of omitted_line_end_ after the calls. */
  function OmittedEnd(calls: seq<Call>): Address {
    if calls == [] then 0 else NextOmittedEnd(OmittedEnd(calls[..|calls| - 1]), calls[|calls| - 1])
  }

  /** The lines the calls add. */
  function Recorded(calls: seq<Call>): seq<Line> {
    if calls == [] then []
    else
      var before, c := calls[..|calls| - 1], calls[|calls| - 1];
      Recorded(before) + if Keeps(OmittedEnd(before), c) then [Kept(c)] else []
  }

  /** A whole line number program. */
  method AddLines(table: DwarfLineToModule, calls: seq<Call>)
    requires table.omittedLineEnd == 0
    modifies table
    ensures table.omittedLineEnd == OmittedEnd(calls)
    ensures table.lines == old(table.lines) + Recorded(calls)
  {
    assert calls[..0] == [];
    for i := 0 to |calls|
      invariant table.omittedLineEnd == OmittedEnd(calls[..i])
      invariant table.lines == old(table.lines) + Recorded(calls[..i])
    {
      assert calls[..i + 1][..i] == calls[..i];
      table.AddLine(calls[i]);
    }
    assert calls[..|calls|] == calls;
  }

  // ---- What is omitted, without the state machine

  /** Call `i` starts just where call `k` ended, and any calls between them are of length zero. */
  ghost predicate Continues(calls: seq<Call>, k: nat, i: nat) {
    && k < i < |calls|
    && calls[k].length != 0 && calls[i].length != 0
    && calls[i].address == calls[k].address + Clipped(calls[k])
    && (forall m | k < m < i :: calls[m].length == 0)
  }

  /** Call `i` is at the end of an unbroken run of calls that begins at address zero. */
  ghost predicate InRunFromZero(calls: seq<Call>, i: nat)
    requires i < |calls|
  {
    calls[i].length != 0
    && (calls[i].address == 0 || exists k :: 0 <= k < i && Continues(calls, k, i) && InRunFromZero(calls, k))
  }

  lemma {:induction false} RunInPrefix(calls: seq<Call>, n: nat, i: nat)
    requires i < n <= |calls|
    ensures InRunFromZero(calls[..n], i) <==> InRunFromZero(calls, i)
    decreases i
  {
    var some := calls[..n];
    forall k | 0 <= k < i ensures Continues(some, k, i) <==> Continues(calls, k, i) {
      assert forall m | k < m < i :: some[m] == calls[m];
      if Continues(some, k, i) { forall m | k < m < i ensures calls[m].length == 0 { assert some[m].length == 0; } }
    }
    forall k | 0 <= k < i ensures InRunFromZero(some, k) <==> InRunFromZero(calls, k) {
      RunInPrefix(calls, n, k);
    }
    if InRunFromZero(some, i) && some[i].address != 0 {
      var k :| 0 <= k < i && Continues(some, k, i) && InRunFromZero(some, k);
      assert Continues(calls, k, i) && InRunFromZero(calls, k);
    }
    if InRunFromZero(calls, i) && calls[i].address != 0 {
      var k :| 0 <= k < i && Continues(calls, k, i) && InRunFromZero(calls, k);
      assert Continues(some, k, i) && InRunFromZero(some, k);
    }
  }

  /** The last call of non-zero length, or -1. */
  ghost function LastNonEmpty(calls: seq<Call>): (k: int)
    ensures -1 <= k < |calls|
    ensures k >= 0 ==> calls[k].length != 0
    ensures forall m | k < m < |calls| :: calls[m].length == 0
  {
    if calls == [] then -1
    else if calls[|calls| - 1].length != 0 then |calls| - 1
    else LastNonEmpty(calls[..|calls| - 1])
  }

  /** The state is the end of the last non-empty call, if that call was in a run from zero, and zero if not. */
  lemma {:induction false} OmittedEndIsRunEnd(calls: seq<Call>)
    ensures var k := LastNonEmpty(calls);
            if k >= 0 && InRunFromZero(calls, k)
            then OmittedEnd(calls) == Add(calls[k].address, Clipped(calls[k]))
            else OmittedEnd(calls) == 0
    decreases |calls|, 0
  {
    if calls != [] {
      var n := |calls| - 1;
      OmittedEndIsRunEnd(calls[..n]);
      if calls[n].length == 0 {
        var k := LastNonEmpty(calls[..n]);
        if k >= 0 { RunInPrefix(calls, n, k); }
      } else {
        OmittedIffInRun(calls, n);
      }
    }
  }

  /** The omitted calls are exactly the non-empty ones at address zero, or in an unbroken run of calls
      continuing from one that is; calls of length zero do not break a run. */
  lemma {:induction false} OmittedIffInRun(calls: seq<Call>, i: nat)
    requires i < |calls|
    ensures Omits(OmittedEnd(calls[..i]), calls[i]) <==> InRunFromZero(calls, i)
    decreases i, 1
  {
    var before := calls[..i];
    OmittedEndIsRunEnd(before);
    var k := LastNonEmpty(before);
    if calls[i].length != 0 && calls[i].address != 0 {
      if k >= 0 {
        RunInPrefix(calls, i, k);
        forall m | k < m < i ensures calls[m].length == 0 { assert before[m].length == 0; }
      }
      if InRunFromZero(calls, i) {
        var j :| 0 <= j < i && Continues(calls, j, i) && InRunFromZero(calls, j);
        assert before[j].length != 0;
        assert j <= k && calls[k] == before[k];
        assert j == k;
      }
      if k >= 0 && InRunFromZero(calls, k) && calls[i].address == calls[k].address + Clipped(calls[k]) {
        assert Continues(calls, k, i);
      }
    }
  }

  /** Every recorded line is non-empty, starts above zero and does not pass the end of the address space:
      what the line sweep requires of its lines. */
  lemma {:induction false} RecordedLinesAreValid(calls: seq<Call>)
    ensures AllValid(Spans(Recorded(calls)))
    ensures forall l | l in Recorded(calls) :: l.address > 0
  {
    if calls != [] {
      var before, c := calls[..|calls| - 1], calls[|calls| - 1];
      RecordedLinesAreValid(before);
      var ls := Recorded(calls);
      forall k | 0 <= k < |ls| ensures Spans(ls)[k].Valid() {
        if k < |Recorded(before)| { assert Spans(Recorded(before))[k].Valid(); }
      }
    }
  }

  /** What is recorded: the non-empty calls that are not in a run from zero and that name a known file, in
      order, clipped. */
  lemma {:induction false} RecordedIsTheRest(calls: seq<Call>, l: Line)
    ensures l in Recorded(calls) <==> exists i :: 0 <= i < |calls| && IsRecorded(calls, i, l)
  {
    if calls != [] {
      var n := |calls| - 1;
      RecordedIsTheRest(calls[..n], l);
      OmittedIffInRun(calls, n);
      forall i | 0 <= i < n ensures IsRecorded(calls[..n], i, l) <==> IsRecorded(calls, i, l) {
        RunInPrefix(calls, n, i);
      }
      assert l in Recorded(calls) <==> l in Recorded(calls[..n]) || IsRecorded(calls, n, l);
    }
  }

  ghost predicate IsRecorded(calls: seq<Call>, i: nat, l: Line)
    requires i < |calls|
  {
    calls[i].length != 0 && !InRunFromZero(calls, i) && calls[i].file.File? && l == Kept(calls[i])
  }
}
