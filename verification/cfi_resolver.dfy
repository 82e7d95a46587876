/** BasicSourceLineResolver::Module: loading STACK CFI records, and the rules in force at an address. */
module CfiResolver {
  import opened Addresses
  import opened CfiLines
  import opened CfiRecords
  import opened CfiRules
  import opened CfiSerialize
  import opened CText
  import opened Options
  import opened OutputStreams
  import opened RangeMaps
  import opened RangeTree

  // ---- The rules in force

  /** Some rules, and then the changes at addresses up to and including `a`. */
  function ApplyUpTo(changes: seq<Change>, a: int, info: FrameInfo): FrameInfo {
    if changes == [] then info
    else ApplyUpTo(changes[1..], a, if changes[0].address <= a then SetAll(info, changes[0].rules) else info)
  }

  /** The rules in force at an address of an entry, as module.h defines them. */
  function InForce(e: StackFrameEntry, a: int): FrameInfo {
    ApplyUpTo(e.ruleChanges, a, SetAll(FRESH, e.initialRules))
  }

  lemma {:induction false} AscendingIsUnique(a: seq<DeltaRule>, b: seq<DeltaRule>)
    requires DeltasAscend(a) && DeltasAscend(b) && SameMembers(a, b)
    ensures a == b
    decreases |a|
  {
    EmptyTogether(a, b);
    if a != [] {
      SameRest(a, b);
      AscendingIsUnique(a[..|a| - 1], b[..|b| - 1]);
      assert a == a[..|a| - 1] + [a[|a| - 1]] && b == b[..|b| - 1] + [b[|b| - 1]];
    }
  }

  ghost predicate SameMembers(a: seq<DeltaRule>, b: seq<DeltaRule>) {
    forall d :: d in a <==> d in b
  }

  lemma EmptyTogether(a: seq<DeltaRule>, b: seq<DeltaRule>)
    requires SameMembers(a, b)
    ensures a == [] <==> b == []
  {
    if a != [] { assert a[0] in a && a[0] in b; }
    if b != [] { assert b[0] in b && b[0] in a; }
  }

  lemma SameRest(a: seq<DeltaRule>, b: seq<DeltaRule>)
    requires DeltasAscend(a) && DeltasAscend(b) && SameMembers(a, b) && a != [] && b != []
    ensures a[|a| - 1] == b[|b| - 1] && SameMembers(a[..|a| - 1], b[..|b| - 1])
  {
    SameLast(a, b);
    WithoutLast(a);
    WithoutLast(b);
    var a', b' := a[..|a| - 1], b[..|b| - 1];
    forall d ensures d in a' <==> d in b' {
      assert d in a <==> d in b;
    }
  }

  lemma WithoutLast(a: seq<DeltaRule>)
    requires DeltasAscend(a) && a != []
    ensures forall d :: d in a[..|a| - 1] <==> d in a && d != a[|a| - 1]
  {
    var n := |a| - 1;
    assert a == a[..n] + [a[n]];
    assert forall k | 0 <= k < n :: a[k].address < a[n].address;
  }

  lemma LastIsGreatest(a: seq<DeltaRule>)
    requires DeltasAscend(a) && a != []
    ensures forall d | d in a :: d == a[|a| - 1] || d.address < a[|a| - 1].address
  {
    assert forall k | 0 <= k < |a| - 1 :: a[k].address < a[|a| - 1].address;
  }

  lemma SameLast(a: seq<DeltaRule>, b: seq<DeltaRule>)
    requires DeltasAscend(a) && DeltasAscend(b) && a != [] && b != [] && SameMembers(a, b)
    ensures a[|a| - 1] == b[|b| - 1]
  {
    LastIsGreatest(a);
    LastIsGreatest(b);
    assert a[|a| - 1] in b && b[|b| - 1] in a;
  }

  function ChangeRules(e: StackFrameEntry, load: Address): (ds: seq<DeltaRule>)
    ensures |ds| == |e.ruleChanges|
    ensures forall k | 0 <= k < |ds| :: ds[k] == DeltaRuleOf(e.ruleChanges[k], load)
  {
    seq(|e.ruleChanges|, k requires 0 <= k < |e.ruleChanges| => DeltaRuleOf(e.ruleChanges[k], load))
  }

  /** Where the changes of an entry are among all that were loaded. */
  ghost predicate ChangesAt(deltas: seq<DeltaRule>, at: nat, e: StackFrameEntry, load: Address) {
    && at + |e.ruleChanges| <= |deltas|
    && deltas[at..at + |e.ruleChanges|] == ChangeRules(e, load)
    && (at + |e.ruleChanges| < |deltas| ==> deltas[at + |e.ruleChanges|].address > ItemOf(e, load).high)
  }

  lemma DeltaOfEntry(l: Loaded, es: seq<StackFrameEntry>, load: Address, n: nat, d: DeltaRule)
    requires AreSound(es, load) && Knows(l, es, load) && n < |es|
    ensures d in l.deltas && ItemOf(es[n], load).base <= d.address <= ItemOf(es[n], load).high <==>
            d in ChangeRules(es[n], load)
  {
    assert IsSound(es[n], load);
    ChangeIsThere(es[n], load, d);
    if d in l.deltas && ItemOf(es[n], load).base <= d.address <= ItemOf(es[n], load).high {
      var i :| 0 <= i < |es| && IsChange(d, es[i], load, |es[i].ruleChanges|);
      ChangeInOne(es, load, i, n, d);
    }
  }

  lemma ChangeIsThere(e: StackFrameEntry, load: Address, d: DeltaRule)
    requires IsSound(e, load)
    ensures d in ChangeRules(e, load) <==> IsChange(d, e, load, |e.ruleChanges|)
    ensures IsChange(d, e, load, |e.ruleChanges|) ==> ItemOf(e, load).base <= d.address <= ItemOf(e, load).high
  {
    if d in ChangeRules(e, load) {
      var k :| 0 <= k < |e.ruleChanges| && d == ChangeRules(e, load)[k];
      assert d == DeltaRuleOf(e.ruleChanges[k], load);
    }
    if IsChange(d, e, load, |e.ruleChanges|) {
      var k :| 0 <= k < |e.ruleChanges| && d == DeltaRuleOf(e.ruleChanges[k], load);
      assert ChangeRules(e, load)[k] == d;
    }
  }

  lemma ChangeInOne(es: seq<StackFrameEntry>, load: Address, i: nat, n: nat, d: DeltaRule)
    requires AreSound(es, load) && i < |es| && n < |es| && IsChange(d, es[i], load, |es[i].ruleChanges|)
    requires ItemOf(es[n], load).base <= d.address <= ItemOf(es[n], load).high
    ensures i == n
  {
    ChangeIsThere(es[i], load, d);
    assert IsSound(es[n], load);
    assert i < n ==> AreApart(es[i], es[n]);
    assert n < i ==> AreApart(es[n], es[i]);
  }

  lemma Position(deltas: seq<DeltaRule>, x: int, i: nat)
    requires DeltasAscend(deltas) && i < |deltas|
    ensures i < LowerBound(DeltaAddresses(deltas), x) <==> deltas[i].address < x
  {
    var keys := DeltaAddresses(deltas);
    var at := LowerBound(keys, x);
    assert keys[i] == deltas[i].address;
    if at < |deltas| { assert keys[at] == deltas[at].address; }
  }

  lemma InSegment(deltas: seq<DeltaRule>, from: nat, to: nat, base: int, high: int, d: DeltaRule)
    requires DeltasAscend(deltas) && from <= to <= |deltas|
    requires from == LowerBound(DeltaAddresses(deltas), base) && to == LowerBound(DeltaAddresses(deltas), high + 1)
    ensures d in deltas[from..to] <==> d in deltas && base <= d.address <= high
  {
    forall i | 0 <= i < |deltas| ensures from <= i < to <==> base <= deltas[i].address <= high {
      Position(deltas, base, i);
      Position(deltas, high + 1, i);
    }
    SegmentHas(deltas, from, to, base, high, d);
  }

  lemma SegmentHas(deltas: seq<DeltaRule>, from: nat, to: nat, base: int, high: int, d: DeltaRule)
    requires from <= to <= |deltas|
    requires forall i | 0 <= i < |deltas| :: from <= i < to <==> base <= deltas[i].address <= high
    ensures d in deltas[from..to] <==> d in deltas && base <= d.address <= high
  {
    if d in deltas && base <= d.address <= high {
      var i :| 0 <= i < |deltas| && deltas[i] == d;
      assert deltas[from..to][i - from] == d;
    }
  }

  lemma ChangesAreTogether(l: Loaded, es: seq<StackFrameEntry>, load: Address, n: nat)
    requires AreSound(es, load) && Knows(l, es, load) && n < |es|
    ensures ChangesAt(l.deltas, LowerBound(DeltaAddresses(l.deltas), ItemOf(es[n], load).base), es[n], load)
  {
    var keys, x := DeltaAddresses(l.deltas), ItemOf(es[n], load);
    var from, to := LowerBound(keys, x.base), LowerBound(keys, x.high + 1);
    assert IsSound(es[n], load);
    LowerBoundMonotone(keys, x.base, x.high + 1);
    SegmentIsChanges(l, es, load, n, from, to);
    assert to < |keys| ==> keys[to] == l.deltas[to].address;
  }

  lemma SegmentIsChanges(l: Loaded, es: seq<StackFrameEntry>, load: Address, n: nat, from: nat, to: nat)
    requires AreSound(es, load) && Knows(l, es, load) && n < |es| && from <= to <= |l.deltas|
    requires from == LowerBound(DeltaAddresses(l.deltas), ItemOf(es[n], load).base)
    requires to == LowerBound(DeltaAddresses(l.deltas), ItemOf(es[n], load).high + 1)
    ensures l.deltas[from..to] == ChangeRules(es[n], load)
  {
    var segment, changes := l.deltas[from..to], ChangeRules(es[n], load);
    forall d ensures d in segment <==> d in changes {
      DeltaOfEntry(l, es, load, n, d);
      InSegment(l.deltas, from, to, ItemOf(es[n], load).base, ItemOf(es[n], load).high, d);
    }
    ChangesAscend(es[n], load);
    AscendingIsUnique(segment, changes);
  }

  lemma ChangesAscend(e: StackFrameEntry, load: Address)
    requires IsSound(e, load)
    ensures DeltasAscend(ChangeRules(e, load))
  {
  }

  // ---- What a rule set does, and what the loaded ones say about an address

  /** ParseCFIRuleSet: what a text makes of a frame info, even if it is refused half way. */
  function AfterRuleSet(text: string, info: FrameInfo): FrameInfo {
    Apply(info, HandedOn(Words(BeforeNul(text))))
  }

  ghost predicate IsAccepted(text: string) {
    Grammatical(Words(BeforeNul(text)))
  }

  /** The delta rules from `at` on, up to an address. */
  function AfterDeltas(deltas: seq<DeltaRule>, at: nat, address: Address, info: FrameInfo): FrameInfo
    requires at <= |deltas|
    decreases |deltas| - at
  {
    if at == |deltas| || deltas[at].address > address then info
    else AfterDeltas(deltas, at + 1, address, AfterRuleSet(deltas[at].rules, info))
  }

  /** The rules at an address: none if no initial rules cover it, or if those are refused. */
  ghost function RulesAt(l: Loaded, address: Address): Option<FrameInfo> {
    match RetrieveRange(l.initial, address)
    case None => None
    case Some(x) =>
      if !IsAccepted(x.entry) then None
      else Some(AfterDeltas(l.deltas, LowerBound(DeltaAddresses(l.deltas), x.base), address, AfterRuleSet(x.entry, FRESH)))
  }

  /** As far as STACK CFI goes. */
  class ResolverModule {
    var cfiInitialRules: seq<Item<string>>
    var cfiDeltaRules: seq<DeltaRule>

    constructor ()
      ensures State() == EMPTY
    {
      cfiInitialRules, cfiDeltaRules := [], [];
    }

    function State(): Loaded
      reads this
    {
      Loaded(cfiInitialRules, cfiDeltaRules)
    }

    /** One record, by the fields of its line; a line that lacks one is refused. */
    method ParseCFIFrameInfo(line: string) returns (ok: bool)
      modifies this
      ensures match ParseLine(line)
              case None => !ok && State() == old(State())
              case Some(r) => ok && LoadRecord(old(State()), r) == Some(State())
    {
      var init, address, size, rules, rest;
      init, rest := StrTok(line, BLANKS);
      if init == "" { return false; }
      if init == "INIT" {
        address, rest := StrTok(rest, BLANKS);
        if address == "" { return false; }
        size, rest := StrTok(rest, BLANKS);
        if size == "" { return false; }
        rules, rest := StrTok(rest, LINE_ENDS);
        if rules == "" { return false; }
        var after := StoreRange(cfiInitialRules, StrToUl(address), StrToUl(size), rules);
        if after.Some? { cfiInitialRules := after.value; }
        return true;
      }
      rules, rest := StrTok(rest, LINE_ENDS);
      if rules == "" { return false; }
      cfiDeltaRules := SetDelta(cfiDeltaRules, DeltaRule(StrToUl(init), rules));
      return true;
    }

    /** The rules at an address, whatever has been loaded. */
    method FindCFIFrameInfo(address: Address) returns (frameInfo: CFIFrameInfo?)
      ensures frameInfo == null <==> RulesAt(State(), address).None?
      ensures frameInfo != null ==> fresh(frameInfo) && RulesAt(State(), address) == Some(frameInfo.Info())
    {
      var range := RetrieveRange(cfiInitialRules, address);
      if range.None? { return null; }
      frameInfo := new CFIFrameInfo();
      var ok := ParseCFIRuleSet(range.value.entry, frameInfo);
      if !ok { return null; }
      var delta := LowerBound(DeltaAddresses(cfiDeltaRules), range.value.base);
      ApplyDeltas(frameInfo, cfiDeltaRules, delta, address);
    }
  }

  method StrTok(s: string, delimiters: set<char>) returns (token: string, rest: string)
    ensures (token, rest) == NextPart(s, delimiters)
  {
    var part := NextPart(s, delimiters);
    return part.0, part.1;
  }

  method ParseCFIRuleSet(text: string, info: CFIFrameInfo) returns (ok: bool)
    modifies info
    ensures ok <==> IsAccepted(text)
    ensures info.Info() == AfterRuleSet(text, old(info.Info()))
  {
    var parser := new CFIRuleParser(info);
    ghost var rules;
    ok, rules := parser.Parse(text);
  }

  /** The loop of FindCFIFrameInfo. */
  method ApplyDeltas(frameInfo: CFIFrameInfo, deltas: seq<DeltaRule>, from: nat, address: Address)
    requires from <= |deltas|
    modifies frameInfo
    ensures frameInfo.Info() == AfterDeltas(deltas, from, address, old(frameInfo.Info()))
  {
    var delta := from;
    while delta < |deltas| && deltas[delta].address <= address
      invariant delta <= |deltas|
      invariant AfterDeltas(deltas, delta, address, frameInfo.Info())
             == AfterDeltas(deltas, from, address, old(frameInfo.Info()))
    {
      var _ := ParseCFIRuleSet(deltas[delta].rules, frameInfo);
      delta := delta + 1;
    }
  }

  // ---- For what was written

  /** The text of rules is accepted, and sets them. */
  lemma TextSetsRules(pairs: seq<Pair>, info: FrameInfo)
    requires AreRules(pairs) && pairs != []
    ensures IsAccepted(Text(pairs)) && AfterRuleSet(Text(pairs), info) == SetAll(info, pairs)
  {
    var rules := RulesFor(pairs);
    TextIsJoined(rules);
    WrittenIsGrammatical(rules);
    JoinedIsPlain(AllWritten(rules));
    BeforeNulOfPlain(Joined(AllWritten(rules)));
    WordsOfJoined(AllWritten(rules));
    WrittenIsHandedOn(rules);
    ApplyIsSetAll(info, rules);
  }

  /** Changes in order, by rules that are accepted. */
  ghost predicate InSequence(changes: seq<Change>, load: Address) {
    changes == []
    || (&& load <= changes[0].address && AreRules(changes[0].rules) && changes[0].rules != []
        && (forall j | 0 <= j < |changes| :: changes[0].address <= changes[j].address)
        && InSequence(changes[1..], load))
  }

  /** From `at` on stand the delta rules of some changes, and then none up to the address. */
  ghost predicate StandAt(deltas: seq<DeltaRule>, at: nat, changes: seq<Change>, load: Address, address: Address)
    decreases |changes|
  {
    if changes == [] then at <= |deltas| && (at < |deltas| ==> deltas[at].address > address)
    else
      at < |deltas| && deltas[at] == DeltaRuleOf(changes[0], load) && StandAt(deltas, at + 1, changes[1..], load, address)
  }

  lemma StandWithin(deltas: seq<DeltaRule>, at: nat, changes: seq<Change>, load: Address, address: Address)
    requires StandAt(deltas, at, changes, load, address)
    ensures at <= |deltas|
  {
  }

  lemma {:induction false} DeltasAreChanges(deltas: seq<DeltaRule>, at: nat, changes: seq<Change>, load: Address,
                                            address: Address, info: FrameInfo)
    requires at <= |deltas| && InSequence(changes, load) && StandAt(deltas, at, changes, load, address)
    ensures AfterDeltas(deltas, at, address, info) == ApplyUpTo(changes, load + address, info)
    decreases |changes|
  {
    if changes != [] {
      if changes[0].address <= load + address {
        TextSetsRules(changes[0].rules, info);
        StandWithin(deltas, at + 1, changes[1..], load, address);
        DeltasAreChanges(deltas, at + 1, changes[1..], load, address, SetAll(info, changes[0].rules));
      } else {
        LaterAreSkipped(changes, load + address, info);
      }
    }
  }

  lemma {:induction false} ChangesInSequence(e: StackFrameEntry, load: Address, k: nat)
    requires IsSound(e, load) && k <= |e.ruleChanges|
    ensures InSequence(e.ruleChanges[k..], load)
    decreases |e.ruleChanges| - k
  {
    if k < |e.ruleChanges| {
      ChangesInSequence(e, load, k + 1);
      var rest := e.ruleChanges[k..];
      assert rest[1..] == e.ruleChanges[k + 1..] && rest[0] == e.ruleChanges[k];
      forall j | 0 <= j < |rest| ensures rest[0].address <= rest[j].address {
        assert rest[j] == e.ruleChanges[k + j];
      }
    }
  }

  lemma {:induction false} ChangesStandAt(deltas: seq<DeltaRule>, from: nat, e: StackFrameEntry, load: Address,
                                          address: Address, k: nat)
    requires ChangesAt(deltas, from, e, load) && address <= ItemOf(e, load).high && k <= |e.ruleChanges|
    ensures StandAt(deltas, from + k, e.ruleChanges[k..], load, address)
    decreases |e.ruleChanges| - k
  {
    if k < |e.ruleChanges| {
      assert deltas[from + k] == deltas[from..from + |e.ruleChanges|][k];
      ChangesStandAt(deltas, from, e, load, address, k + 1);
      assert e.ruleChanges[k..][1..] == e.ruleChanges[k + 1..];
    }
  }

  lemma {:induction false} LaterAreSkipped(changes: seq<Change>, a: int, info: FrameInfo)
    requires forall j | 0 <= j < |changes| :: changes[j].address > a
    ensures ApplyUpTo(changes, a, info) == info
    decreases |changes|
  {
    if changes != [] { LaterAreSkipped(changes[1..], a, info); }
  }

  predicate Covers(e: StackFrameEntry, a: Address) {
    e.address <= a < e.address + e.size
  }

  lemma CoversIsHas(e: StackFrameEntry, load: Address, a: Address)
    requires IsSound(e, load) && load <= a
    ensures Covers(e, a) <==> ItemOf(e, load).Has(a - load)
  {
  }

  /** Each entry that covers the address has these rules, which are none if there is no such entry. */
  ghost predicate IsAnswer(rules: Option<FrameInfo>, es: seq<StackFrameEntry>, a: Address) {
    && (rules.None? <==> forall n | 0 <= n < |es| :: !Covers(es[n], a))
    && forall n | 0 <= n < |es| && Covers(es[n], a) :: rules == Some(InForce(es[n], a))
  }

  lemma NoneCovers(l: Loaded, es: seq<StackFrameEntry>, load: Address, a: Address)
    requires AreSound(es, load) && Knows(l, es, load) && load <= a && forall y | y in l.initial :: !y.Has(a - load)
    ensures IsAnswer(None, es, a)
  {
    forall n | 0 <= n < |es| ensures !Covers(es[n], a) {
      assert ItemOf(es[n], load) in l.initial;
      CoversIsHas(es[n], load, a);
    }
  }

  lemma OnlyOneCovers(es: seq<StackFrameEntry>, load: Address, a: Address, n: nat)
    requires AreSound(es, load) && load <= a && n < |es| && Covers(es[n], a)
    ensures IsAnswer(Some(InForce(es[n], a)), es, a)
  {
    forall i | 0 <= i < |es| && i != n ensures !Covers(es[i], a) {
      assert if i < n then AreApart(es[i], es[n]) else AreApart(es[n], es[i]);
    }
  }

  lemma RulesOfOne(l: Loaded, e: StackFrameEntry, load: Address, a: Address)
    requires load <= a && IsSound(e, load) && RetrieveRange(l.initial, a - load) == Some(ItemOf(e, load))
    requires ItemOf(e, load).Has(a - load)
    requires ChangesAt(l.deltas, LowerBound(DeltaAddresses(l.deltas), ItemOf(e, load).base), e, load)
    ensures RulesAt(l, a - load) == Some(InForce(e, a))
  {
    RulesFrom(l, e, load, a - load);
  }

  lemma RulesFrom(l: Loaded, e: StackFrameEntry, load: Address, address: Address)
    requires IsSound(e, load) && RetrieveRange(l.initial, address) == Some(ItemOf(e, load))
    requires ChangesAt(l.deltas, LowerBound(DeltaAddresses(l.deltas), ItemOf(e, load).base), e, load)
    requires address <= ItemOf(e, load).high
    ensures RulesAt(l, address) == Some(InForce(e, load + address))
  {
    var from := LowerBound(DeltaAddresses(l.deltas), ItemOf(e, load).base);
    TextSetsRules(e.initialRules, FRESH);
    ChangesInSequence(e, load, 0);
    ChangesStandAt(l.deltas, from, e, load, address, 0);
    assert e.ruleChanges[0..] == e.ruleChanges;
    DeltasAreChanges(l.deltas, from, e.ruleChanges, load, address, SetAll(FRESH, e.initialRules));
  }

  /** When sound entries have been loaded, the rules at an address are those in force in the entry that covers it. */
  lemma RulesAreInForce(l: Loaded, es: seq<StackFrameEntry>, load: Address, a: Address)
    requires AreSound(es, load) && Knows(l, es, load) && load <= a
    ensures IsAnswer(RulesAt(l, a - load), es, a)
  {
    hide AfterDeltas, IsAccepted, InForce, IsSound;
    RetrieveRangeIsRight(l.initial, a - load);
    match RetrieveRange(l.initial, a - load)
    case None => NoneCovers(l, es, load, a);
    case Some(x) =>
      var n :| 0 <= n < |es| && x == ItemOf(es[n], load);
      RulesOfEntry(l, es, load, a, n);
      CoversIsHas(es[n], load, a);
      OnlyOneCovers(es, load, a, n);
  }

  lemma RulesOfEntry(l: Loaded, es: seq<StackFrameEntry>, load: Address, a: Address, n: nat)
    requires AreSound(es, load) && Knows(l, es, load) && load <= a && n < |es|
    requires RetrieveRange(l.initial, a - load) == Some(ItemOf(es[n], load)) && ItemOf(es[n], load).Has(a - load)
    ensures RulesAt(l, a - load) == Some(InForce(es[n], a))
  {
    ChangesAreTogether(l, es, load, n);
    assert IsSound(es[n], load);
    RulesOfOne(l, es[n], load, a);
  }

  // ---- Loading a text

  /** Whether the parsers for lines of other kinds accept line number `n`. */
  type Accepts = nat -> bool

  function LoadLine(l: Loaded, line: string, accepted: bool): Option<Loaded> {
    match KindOf(line)
    case Unknown => None
    case Other => if accepted then Some(l) else None
    case Cfi(arguments) =>
      (match ParseLine(arguments)
       case None => None
       case Some(r) => LoadRecord(l, r))
  }

  /** The lines from number `n` on. */
  function LoadLines(l: Loaded, lines: seq<string>, accepts: Accepts, n: nat): Option<Loaded>
    decreases |lines|
  {
    if lines == [] then Some(l)
    else
      match LoadLine(l, lines[0], accepts(n))
      case None => None
      case Some(next) => LoadLines(next, lines[1..], accepts, n + 1)
  }

  /** What a file's text leaves in a module: nothing, if one of its lines is refused. */
  function LoadedFrom(l: Loaded, text: string, accepts: Accepts): Option<Loaded> {
    LoadLines(l, LinesIn(text), accepts, 1)
  }

  /** The loop over the lines of a file stops at the first that is refused. */
  method LoadText(m: ResolverModule, text: string, accepts: Accepts) returns (ok: bool)
    modifies m
    ensures ok <==> LoadedFrom(old(m.State()), text, accepts).Some?
    ensures ok ==> LoadedFrom(old(m.State()), text, accepts) == Some(m.State())
  {
    ghost var all := LoadLines(m.State(), LinesIn(text), accepts, 1);
    var line, rest := StrTok(text, LINE_ENDS);
    var n := 1;
    RestIs(m.State(), text, accepts, n);
    while line != ""
      invariant all == StillToLoad(m.State(), line, rest, accepts, n)
      decreases |rest| + |line|
    {
      NextToLoad(m.State(), line, rest, accepts, n);
      ok := TakeLine(m, line, accepts(n));
      if !ok { return; }
      n := n + 1;
      RestIs(m.State(), rest, accepts, n);
      line, rest := StrTok(rest, LINE_ENDS);
    }
    ok := true;
  }

  method TakeLine(m: ResolverModule, line: string, accepted: bool) returns (ok: bool)
    modifies m
    ensures match LoadLine(old(m.State()), line, accepted)
            case None => !ok
            case Some(next) => ok && m.State() == next
  {
    match KindOf(line)
    case Unknown => ok := false;
    case Other => ok := accepted;
    case Cfi(arguments) => ok := m.ParseCFIFrameInfo(arguments);
  }

  /** With a line at hand. */
  function StillToLoad(l: Loaded, line: string, rest: string, accepts: Accepts, n: nat): Option<Loaded> {
    if line == "" then Some(l) else LoadLines(l, [line] + LinesIn(rest), accepts, n)
  }

  lemma RestIs(l: Loaded, text: string, accepts: Accepts, n: nat)
    ensures var (line, rest) := NextPart(text, LINE_ENDS);
            && LoadLines(l, LinesIn(text), accepts, n) == StillToLoad(l, line, rest, accepts, n)
            && (line != "" ==> |rest| + |line| <= |text|)
  {
    TokenIsThere(text);
  }

  lemma NextToLoad(l: Loaded, line: string, rest: string, accepts: Accepts, n: nat)
    requires line != ""
    ensures StillToLoad(l, line, rest, accepts, n)
         == match LoadLine(l, line, accepts(n))
            case None => None
            case Some(next) => LoadLines(next, LinesIn(rest), accepts, n + 1)
  {
    assert ([line] + LinesIn(rest))[1..] == LinesIn(rest);
  }

  /** The lines of records load as the records do, where no text has a line end in it. */
  lemma {:induction false} LinesLoad(l: Loaded, records: seq<Record>, accepts: Accepts, n: nat)
    requires AllOneLine(records)
    ensures LoadLines(l, LinesOf(records), accepts, n) == LoadFrom(l, records)
    decreases |records|
  {
    if records == [] {
      assert LinesOf(records) == [];
    } else {
      var before, last := records[..|records| - 1], records[|records| - 1];
      assert IsOneLine(last.rules) && AllOneLine(before) && records == before + [last];
      LinesLoad(l, before, accepts, n);
      OneLineLoads(l, before, last, accepts, n);
    }
  }

  lemma OneLineLoads(l: Loaded, records: seq<Record>, r: Record, accepts: Accepts, n: nat)
    requires IsOneLine(r.rules) && LoadLines(l, LinesOf(records), accepts, n) == LoadFrom(l, records)
    ensures LoadLines(l, LinesOf(records + [r]), accepts, n) == LoadFrom(l, records + [r])
  {
    hide LoadLine, FullLine, LoadRecord, LoadLines;
    assert LinesOf(records + [r]) == LinesOf(records) + [FullLine(r)];
    LoadOneLineMore(l, LinesOf(records), FullLine(r), accepts, n);
    LoadFromOne(l, records, r);
    if LoadFrom(l, records).Some? { LineLoads(LoadFrom(l, records).value, r, accepts(n + |records|)); }
  }

  lemma LineLoads(l: Loaded, r: Record, accepted: bool)
    requires IsOneLine(r.rules)
    ensures LoadLine(l, FullLine(r), accepted) == LoadRecord(l, r)
  {
    LineIsRead(r);
    KindOfRecord(r);
  }

  lemma {:induction false} LoadOneLineMore(l: Loaded, lines: seq<string>, line: string, accepts: Accepts, n: nat)
    ensures LoadLines(l, lines + [line], accepts, n)
         == match LoadLines(l, lines, accepts, n)
            case None => None
            case Some(before) => LoadLine(before, line, accepts(n + |lines|))
    decreases |lines|
  {
    hide LoadLine;
    if lines == [] {
      assert lines + [line] == [line];
    } else {
      assert (lines + [line])[1..] == lines[1..] + [line];
      match LoadLine(l, lines[0], accepts(n))
      case None =>
      case Some(next) => LoadOneLineMore(next, lines[1..], line, accepts, n + 1);
    }
  }

  // ---- From the writer to the answer

  /** What is written of sound entries is one line each. */
  lemma {:induction false} SoundAreLines(es: seq<StackFrameEntry>, load: Address)
    requires forall i | 0 <= i < |es| :: IsSound(es[i], load)
    ensures AllOneLine(AllRecords(es, load))
    decreases |es|
  {
    if es != [] {
      var n := |es| - 1;
      SoundAreLines(es[..n], load);
      EntryIsOneLine(es[n], load, |es[n].ruleChanges|);
    }
  }

  ghost predicate AllOneLine(records: seq<Record>) {
    forall k | 0 <= k < |records| :: IsOneLine(records[k].rules)
  }

  lemma {:induction false} EntryIsOneLine(e: StackFrameEntry, load: Address, m: nat)
    requires IsSound(e, load) && m <= |e.ruleChanges|
    ensures AllOneLine(RecordsOf(e, load, m))
  {
    if m == 0 {
      RulesAreOneLine(e.initialRules);
    } else {
      EntryIsOneLine(e, load, m - 1);
      RulesAreOneLine(e.ruleChanges[m - 1].rules);
    }
  }

  lemma RulesAreOneLine(pairs: seq<Pair>)
    requires AreRules(pairs)
    ensures IsOneLine(Text(pairs))
  {
    var rules := RulesFor(pairs);
    TextIsJoined(rules);
    if rules != [] { WrittenIsGrammatical(rules); }
    JoinedIsOneLine(AllWritten(rules));
  }

  lemma {:induction false} JoinedIsOneLine(ws: seq<string>)
    requires AllWords(ws)
    ensures IsOneLine(Joined(ws))
    decreases |ws|
  {
    if ws != [] {
      assert IsWord(ws[0]);
      JoinedIsOneLine(ws[1..]);
    }
  }

  /** What is loaded of the text written of any entries without line ends in them is what their records load. */
  lemma TextLoads(es: seq<StackFrameEntry>, load: Address, accepts: Accepts)
    requires AllOneLine(AllRecords(es, load))
    ensures LoadedFrom(EMPTY, ModuleText(es, load), accepts) == LoadFrom(EMPTY, AllRecords(es, load))
  {
    TextIsLines(es, load);
    RecordsAreThere(AllRecords(es, load));
    LinesLoad(EMPTY, AllRecords(es, load), accepts, 1);
  }

  /** So that text is accepted exactly if no rule map is empty. */
  lemma TextLoadsIfRules(es: seq<StackFrameEntry>, load: Address, accepts: Accepts)
    requires AllOneLine(AllRecords(es, load))
    ensures LoadedFrom(EMPTY, ModuleText(es, load), accepts).Some? <==> forall i | 0 <= i < |es| :: HasRules(es[i])
  {
    TextLoads(es, load, accepts);
    AllLoadIfRules(es, load);
  }

  lemma WrittenIsLoaded(es: seq<StackFrameEntry>, load: Address, accepts: Accepts) returns (l: Loaded)
    requires AreSound(es, load)
    ensures LoadedFrom(EMPTY, ModuleText(es, load), accepts) == Some(l) && Knows(l, es, load)
  {
    l := SoundEntriesLoad(es, load);
    SoundAreLines(es, load);
    TextLoads(es, load, accepts);
  }

  /** The records written of sound entries are loaded, and the rules at an address are then the initial rules of the entry
      that covers it, changed by all that entry's changes up to there; without such an entry there are none. */
  lemma WrittenIsInForce(es: seq<StackFrameEntry>, load: Address, a: Address, accepts: Accepts)
    requires AreSound(es, load) && load <= a
    ensures var l := LoadedFrom(EMPTY, ModuleText(es, load), accepts);
            l.Some? && IsAnswer(RulesAt(l.value, a - load), es, a)
  {
    hide LoadedFrom, RulesAt;
    var l := WrittenIsLoaded(es, load, accepts);
    RulesAreInForce(l, es, load, a);
  }

  method LoadFind(text: string, address: Address, accepts: Accepts) returns (loaded: bool, frameInfo: CFIFrameInfo?)
    ensures loaded <==> LoadedFrom(EMPTY, text, accepts).Some?
    ensures loaded ==>
              RulesAt(LoadedFrom(EMPTY, text, accepts).value, address)
              == if frameInfo == null then None else Some(frameInfo.Info())
  {
    hide LoadedFrom, RulesAt;
    var m := new ResolverModule();
    frameInfo := null;
    loaded := LoadText(m, text, accepts);
    if loaded {
      ghost var l := m.State();
      frameInfo := m.FindCFIFrameInfo(address);
      assert m.State() == l;
    }
  }

  /** Write the records of some entries to a stream, load the text, and ask for the rules at an address. */
  method WriteLoadFind(es: seq<StackFrameEntry>, load: Address, address: Address, stream: OutputStream, accepts: Accepts)
    returns (loaded: bool, frameInfo: CFIFrameInfo?)
    requires stream.text == "" && stream.good
    modifies stream
    ensures stream.State() == Taking(old(stream.State()), ModuleText(es, load))
    ensures stream.good ==> stream.text == ModuleText(es, load)
    ensures stream.good ==> (loaded <==> LoadedFrom(EMPTY, stream.text, accepts).Some?)
    ensures loaded ==> stream.good
    ensures loaded ==>
              RulesAt(LoadedFrom(EMPTY, stream.text, accepts).value, address)
              == if frameInfo == null then None else Some(frameInfo.Info())
  {
    hide LoadedFrom, RulesAt, ModuleText;
    var _ := WriteStackRecords(es, load, stream);
    loaded, frameInfo := false, null;
    if stream.good { loaded, frameInfo := LoadFind(stream.text, address, accepts); }
  }

  /** For sound entries that are the rules in force. */
  method WriteLoadFindSound(es: seq<StackFrameEntry>, load: Address, a: Address, stream: OutputStream, accepts: Accepts)
    returns (frameInfo: CFIFrameInfo?)
    requires AreSound(es, load) && load <= a && stream.text == "" && stream.good
    modifies stream
    ensures stream.good <==> Fits(old(stream.State()), |ModuleText(es, load)|)
    ensures stream.good ==> IsAnswer(if frameInfo == null then None else Some(frameInfo.Info()), es, a)
  {
    hide AreSound, IsAnswer, RulesAt, LoadedFrom, ModuleText;
    var loaded;
    loaded, frameInfo := WriteLoadFind(es, load, a - load, stream, accepts);
    if stream.good { WrittenIsInForce(es, load, a, accepts); }
  }

  /** One entry with an empty rule map is written, and what is written is refused. */
  method EmptyRulesAreRefused(accepts: Accepts) returns (loaded: bool, stream: OutputStream)
    ensures stream.good && stream.text == ModuleText([StackFrameEntry(0, 1, [], [])], 0) && !loaded
  {
    hide RulesAt, LoadedFrom, ModuleText;
    var es := [StackFrameEntry(0, 1, [], [])];
    stream := new OutputStream(true, 0);
    var frameInfo;
    loaded, frameInfo := WriteLoadFind(es, 0, 0, stream, accepts);
    RecordsOfOne(es[0], 0);
    TextLoadsIfRules(es, 0, accepts);
    assert !HasRules(es[0]);
  }

  lemma RecordsOfOne(e: StackFrameEntry, load: Address)
    requires e.ruleChanges == []
    ensures AllRecords([e], load) == [Init(Sub(e.address, load), e.size, Text(e.initialRules))]
  {
    assert [e][..0] == [];
  }
}
