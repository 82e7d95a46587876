/** STACK CFI records: what a module writes, and what is known when a resolver has loaded them. */
module CfiRecords {
  import opened Addresses
  import opened CfiLines
  import opened CfiRules
  import opened CfiSerialize
  import opened CText
  import opened Options
  import opened OutputStreams
  import opened RangeMaps
  import opened RangeTree
  import opened Sequences

  // ---- What is written

  /** A change of rules at an address. A RuleMap is given in its order. */
  datatype Change = Change(address: Address, rules: seq<Pair>)

  datatype StackFrameEntry =
    StackFrameEntry(address: Address, size: Address, initialRules: seq<Pair>, ruleChanges: seq<Change>)

  lemma TextIsEmpty(pairs: seq<Pair>)
    ensures Text(pairs) == "" <==> pairs == []
  {
  }

  function PairText(p: Pair): string {
    p.name + ": " + p.expression
  }

  lemma TextNext(pairs: seq<Pair>, k: nat)
    requires k < |pairs|
    ensures Text(pairs[..k + 1]) == (Text(pairs[..k]) + (if k != 0 then " " else "")) + PairText(pairs[k])
  {
    assert pairs[..k + 1][..k] == pairs[..k];
    TextIsEmpty(pairs[..k]);
  }

  method WriteRuleMap(rules: seq<Pair>, stream: OutputStream) returns (ok: bool)
    modifies stream
    ensures ok == stream.good && stream.State() == Taking(old(stream.State()), Text(rules))
  {
    ghost var was := stream.State();
    for k := 0 to |rules|
      invariant stream.State() == Taking(was, Text(rules[..k]))
    {
      TextNext(rules, k);
      WritePair(rules[k], k != 0, stream, was, Text(rules[..k]));
    }
    assert rules[..|rules|] == rules;
    ok := stream.good;
  }

  /** The body of that loop. */
  method WritePair(p: Pair, space: bool, stream: OutputStream, ghost was: StreamState, ghost done: string)
    requires stream.State() == Taking(was, done)
    modifies stream
    ensures stream.State() == Taking(was, (done + if space then " " else "") + PairText(p))
  {
    if space { stream.Put(" "); } else { TakingNothing(stream.State()); }
    TakingBoth(was, done, if space then " " else "");
    stream.Put(PairText(p));
    TakingBoth(was, done + if space then " " else "", PairText(p));
  }

  function DeltaOf(change: Change, load: Address): Record {
    Delta(Sub(change.address, load), Text(change.rules))
  }

  function RecordsOf(e: StackFrameEntry, load: Address, m: nat): (records: seq<Record>)
    requires m <= |e.ruleChanges|
    ensures |records| == m + 1
  {
    if m == 0 then [Init(Sub(e.address, load), e.size, Text(e.initialRules))]
    else RecordsOf(e, load, m - 1) + [DeltaOf(e.ruleChanges[m - 1], load)]
  }

  function AllRecords(es: seq<StackFrameEntry>, load: Address): seq<Record> {
    if es == [] then []
    else AllRecords(es[..|es| - 1], load) + RecordsOf(es[|es| - 1], load, |es[|es| - 1].ruleChanges|)
  }

  function HeadOf(r: Record): string {
    match r
    case Init(address, size, _) => PREFIX + "INIT " + Hex(address) + " " + Hex(size) + " "
    case Delta(address, _) => PREFIX + Hex(address) + " "
  }

  function WithRules(r: Record, rules: string): Record {
    r.(rules := rules)
  }

  lemma HeadAndRules(r: Record, rules: string)
    ensures FullLine(WithRules(r, rules)) == HeadOf(r) + rules
  {
  }

  function RecordText(r: Record): string {
    FullLine(r) + "\n"
  }

  /** The text of an entry's first records. */
  function EntryText(e: StackFrameEntry, load: Address, m: nat): string
    requires m <= |e.ruleChanges|
  {
    if m == 0 then RecordText(Init(Sub(e.address, load), e.size, Text(e.initialRules)))
    else EntryText(e, load, m - 1) + RecordText(DeltaOf(e.ruleChanges[m - 1], load))
  }

  /** The STACK CFI records of a module. */
  function ModuleText(es: seq<StackFrameEntry>, load: Address): string {
    if es == [] then "" else ModuleText(es[..|es| - 1], load) + EntryText(es[|es| - 1], load, |es[|es| - 1].ruleChanges|)
  }

  lemma {:induction false} EntryTextIsLines(before: seq<Record>, e: StackFrameEntry, load: Address, m: nat)
    requires m <= |e.ruleChanges|
    ensures Lined(LinesOf(before + RecordsOf(e, load, m))) == Lined(LinesOf(before)) + EntryText(e, load, m)
  {
    hide Lined, LineOf;
    if m == 0 {
      LinedOneMore(before, Init(Sub(e.address, load), e.size, Text(e.initialRules)));
    } else {
      EntryTextIsLines(before, e, load, m - 1);
      var records, last := before + RecordsOf(e, load, m - 1), DeltaOf(e.ruleChanges[m - 1], load);
      assert before + RecordsOf(e, load, m) == records + [last];
      LinedOneMore(records, last);
      Associative(Lined(LinesOf(before)), EntryText(e, load, m - 1), RecordText(last));
    }
  }

  /** That text is one line for each record. */
  lemma {:induction false} TextIsLines(es: seq<StackFrameEntry>, load: Address)
    ensures ModuleText(es, load) == Lined(LinesOf(AllRecords(es, load)))
  {
    if es != [] {
      var n := |es| - 1;
      TextIsLines(es[..n], load);
      EntryTextIsLines(AllRecords(es[..n], load), es[n], load, |es[n].ruleChanges|);
    }
  }

  /** The part of both loops that writes a record. That the stream has failed is not noticed at the line end. */
  method WriteRecord(r: Record, rules: seq<Pair>, stream: OutputStream) returns (ok: bool)
    modifies stream
    ensures var text := RecordText(WithRules(r, Text(rules)));
            stream.State() == Taking(old(stream.State()), text) && (ok <==> Fits(old(stream.State()), |text| - 1))
  {
    ghost var was := stream.State();
    RecordPieces(was, r, Text(rules));
    stream.Put(HeadOf(r));
    if !stream.good { return false; }
    ok := WriteRuleMap(rules, stream);
    if !ok { return; }
    stream.Put("\n");
  }

  /** A record is written in three pieces. */
  lemma RecordPieces(s: StreamState, r: Record, rules: string)
    ensures var text := RecordText(WithRules(r, rules));
            && Taking(Taking(Taking(s, HeadOf(r)), rules), "\n") == Taking(s, text)
            && (Taking(Taking(s, HeadOf(r)), rules).good <==> Fits(s, |text| - 1))
            && (!Taking(s, HeadOf(r)).good ==> Taking(s, text) == Taking(s, HeadOf(r)) && !Fits(s, |text| - 1))
            && (!Taking(Taking(s, HeadOf(r)), rules).good ==> Taking(s, text) == Taking(Taking(s, HeadOf(r)), rules))
  {
    HeadAndRules(r, rules);
    TakingBoth(s, HeadOf(r), rules);
    TakingBoth(s, HeadOf(r) + rules, "\n");
  }

  /** The STACK CFI part of Module::Write. Whatever happens, the stream is given the text as far as it takes it. The result is
      true exactly if all was taken but perhaps the very last line end. */
  method WriteStackRecords(es: seq<StackFrameEntry>, load: Address, stream: OutputStream) returns (ok: bool)
    modifies stream
    ensures stream.State() == Taking(old(stream.State()), ModuleText(es, load))
    ensures ok <==> es == [] || Fits(old(stream.State()), |ModuleText(es, load)| - 1)
  {
    hide EntryText, Fits, Taking;
    ghost var was := stream.State();
    TakingNothing(was);
    for i := 0 to |es|
      invariant stream.State() == Taking(was, ModuleText(es[..i], load))
      invariant i > 0 ==> Fits(was, |ModuleText(es[..i], load)| - 1)
    {
      TextOfNext(es, load, i);
      TextGoesOn(es, load, i + 1);
      ok := WriteEntry(es[i], load, stream);
      Continued(was, ModuleText(es[..i], load), EntryText(es[i], load, |es[i].ruleChanges|));
      if !ok {
        CutOff(was, ModuleText(es[..i + 1], load), ModuleText(es, load));
        return;
      }
    }
    assert es[..|es|] == es;
    ok := true;
  }

  lemma TextOfNext(es: seq<StackFrameEntry>, load: Address, i: nat)
    requires i < |es|
    ensures ModuleText(es[..i + 1], load) == ModuleText(es[..i], load) + EntryText(es[i], load, |es[i].ruleChanges|)
    ensures |EntryText(es[i], load, |es[i].ruleChanges|)| > 0
  {
    assert es[..i + 1][..i] == es[..i];
    EntryHasText(es[i], load, |es[i].ruleChanges|);
  }

  lemma {:induction false} EntryHasText(e: StackFrameEntry, load: Address, m: nat)
    requires m <= |e.ruleChanges|
    ensures |EntryText(e, load, m)| > 0 && (m > 0 ==> |EntryText(e, load, m)| > |EntryText(e, load, m - 1)|)
  {
    if m > 0 { EntryHasText(e, load, m - 1); }
  }

  /** The text of some of the entries comes first. */
  lemma {:induction false} TextGoesOn(es: seq<StackFrameEntry>, load: Address, i: nat)
    requires i <= |es|
    ensures ModuleText(es[..i], load) <= ModuleText(es, load)
    decreases |es|
  {
    if i < |es| {
      TextGoesOn(es[..|es| - 1], load, i);
      assert es[..|es| - 1][..i] == es[..i];
    } else {
      assert es[..i] == es;
    }
  }

  /** What comes next, and whether all but its last character fits. */
  lemma Continued(s: StreamState, done: string, next: string)
    requires next != ""
    ensures Taking(Taking(s, done), next) == Taking(s, done + next)
    ensures Fits(Taking(s, done), |next| - 1) <==> Fits(s, |done + next| - 1)
  {
    TakingBoth(s, done, next);
  }

  /** A stream that has failed takes no more. */
  lemma CutOff(s: StreamState, done: string, all: string)
    requires done != "" && done <= all && !Fits(s, |done| - 1)
    ensures Taking(s, all) == Taking(s, done) && !Fits(s, |all| - 1)
  {
    TakingBoth(s, done, all[|done|..]);
    assert done + all[|done|..] == all;
  }

  /** The body of the loop over the entries. */
  method WriteEntry(e: StackFrameEntry, load: Address, stream: OutputStream) returns (ok: bool)
    modifies stream
    ensures var text := EntryText(e, load, |e.ruleChanges|);
            stream.State() == Taking(old(stream.State()), text) && (ok <==> Fits(old(stream.State()), |text| - 1))
  {
    hide RecordText;
    ghost var was := stream.State();
    EntryGoesOn(e, load, 0, |e.ruleChanges|);
    ok := WriteRecord(Init(Sub(e.address, load), e.size, ""), e.initialRules, stream);
    if !ok {
      CutOff(was, EntryText(e, load, 0), EntryText(e, load, |e.ruleChanges|));
      return;
    }
    for k := 0 to |e.ruleChanges|
      invariant stream.State() == Taking(was, EntryText(e, load, k)) && Fits(was, |EntryText(e, load, k)| - 1)
    {
      EntryGoesOn(e, load, k + 1, |e.ruleChanges|);
      EntryHasText(e, load, k + 1);
      Continued(was, EntryText(e, load, k), RecordText(DeltaOf(e.ruleChanges[k], load)));
      ok := WriteRecord(Delta(Sub(e.ruleChanges[k].address, load), ""), e.ruleChanges[k].rules, stream);
      if !ok {
        CutOff(was, EntryText(e, load, k + 1), EntryText(e, load, |e.ruleChanges|));
        return;
      }
    }
    ok := true;
  }

  lemma {:induction false} EntryGoesOn(e: StackFrameEntry, load: Address, k: nat, m: nat)
    requires k <= m <= |e.ruleChanges|
    ensures EntryText(e, load, k) <= EntryText(e, load, m) && EntryText(e, load, k) != ""
    decreases m
  {
    hide RecordText;
    EntryHasText(e, load, k);
    if k < m { EntryGoesOn(e, load, k, m - 1); }
  }

  // ---- A failure that is not noticed

  /** The result is true on a stream that has failed exactly if there is room for all but the last line end; or if there is
      nothing to write, and the stream had failed before. */
  lemma UnnoticedIff(s: StreamState, es: seq<StackFrameEntry>, load: Address)
    ensures var n := |ModuleText(es, load)|;
            (es == [] || Fits(s, n - 1)) && !Taking(s, ModuleText(es, load)).good <==>
            if es == [] then !s.good else s.good && !s.reliable && s.room == n - 1
  {
    if es != [] {
      hide EntryText;
      EntryHasText(es[|es| - 1], load, |es[|es| - 1].ruleChanges|);
    }
  }

  const ONE_ENTRY := StackFrameEntry(0, 1, [Pair(".cfa", "x")], [])

  lemma TextOfOne()
    ensures ModuleText([ONE_ENTRY], 0) == "STACK CFI INIT 0 1 .cfa: x\n"
  {
    hide RecordText, Text;
    TextOfOneEntry(ONE_ENTRY, 0);
    OneRule(ONE_ENTRY.initialRules[0]);
    assert PairText(Pair(".cfa", "x")) == ".cfa: x";
    assert Text(ONE_ENTRY.initialRules) == ".cfa: x";
    assert ModuleText([ONE_ENTRY], 0) == RecordText(Init(0, 1, ".cfa: x"));
    LineOfOne(".cfa: x");
    assert "STACK CFI INIT 0 1 " + ".cfa: x" + "\n" == "STACK CFI INIT 0 1 .cfa: x\n";
  }

  lemma LineOfOne(rules: string)
    ensures RecordText(Init(0, 1, rules)) == "STACK CFI INIT 0 1 " + rules + "\n"
  {
    assert Hex(0) == "0" && Hex(1) == "1";
    assert "INIT " + "0" + " " + "1" + " " == "INIT 0 1 ";
    assert PREFIX + "INIT 0 1 " == "STACK CFI INIT 0 1 ";
    Associative(PREFIX, "INIT 0 1 ", rules);
  }

  lemma TextOfOneEntry(e: StackFrameEntry, load: Address)
    requires e.ruleChanges == []
    ensures ModuleText([e], load) == RecordText(Init(Sub(e.address, load), e.size, Text(e.initialRules)))
  {
    hide RecordText;
    assert [e][..0] == [];
  }

  lemma OneRule(p: Pair)
    ensures Text([p]) == PairText(p)
  {
    assert [p][..0] == [];
  }

  /** The stream fails at the line end, and the result is true. */
  method LastLineEndIsLost() returns (ok: bool, stream: OutputStream)
    ensures ok && !stream.good && stream.text == "STACK CFI INIT 0 1 .cfa: x"
  {
    stream := new OutputStream(false, 26);
    TextOfOne();
    ok := WriteStackRecords([ONE_ENTRY], 0, stream);
  }

  // ---- What is loaded

  datatype DeltaRule = DeltaRule(address: Address, rules: string)

  function DeltaAddresses(deltas: seq<DeltaRule>): (keys: seq<int>)
    ensures |keys| == |deltas| && forall i | 0 <= i < |keys| :: keys[i] == deltas[i].address
  {
    seq(|deltas|, i requires 0 <= i < |deltas| => deltas[i].address)
  }

  ghost predicate DeltasAscend(deltas: seq<DeltaRule>) {
    forall i, j | 0 <= i < j < |deltas| :: deltas[i].address < deltas[j].address
  }

  /** Assignment to an element of a std::map. */
  function SetDelta(deltas: seq<DeltaRule>, d: DeltaRule): seq<DeltaRule> {
    var at := LowerBound(DeltaAddresses(deltas), d.address);
    deltas[..at] + [d]
    + (if at < |deltas| && deltas[at].address == d.address then deltas[at + 1..] else deltas[at..])
  }

  lemma SetDeltaIsRight(deltas: seq<DeltaRule>, d: DeltaRule)
    requires DeltasAscend(deltas)
    ensures DeltasAscend(SetDelta(deltas, d))
    ensures forall x :: x in SetDelta(deltas, d) <==> x == d || (x in deltas && x.address != d.address)
  {
    var keys, at := DeltaAddresses(deltas), LowerBound(DeltaAddresses(deltas), d.address);
    var same := at < |deltas| && deltas[at].address == d.address;
    var from := if same then at + 1 else at;
    assert forall i | 0 <= i < at :: keys[i] < d.address && deltas[i].address == keys[i];
    assert forall i | from <= i < |deltas| :: deltas[i].address > d.address;
    Replaced(deltas, d, at, from);
  }

  lemma Replaced(deltas: seq<DeltaRule>, d: DeltaRule, at: nat, from: nat)
    requires DeltasAscend(deltas) && at <= from <= |deltas|
    requires forall i | 0 <= i < at :: deltas[i].address < d.address
    requires forall i | from <= i < |deltas| :: deltas[i].address > d.address
    requires forall i | at <= i < from :: deltas[i].address == d.address
    ensures DeltasAscend(deltas[..at] + [d] + deltas[from..])
    ensures forall x :: x in deltas[..at] + [d] + deltas[from..] <==> x == d || (x in deltas && x.address != d.address)
  {
    var a, mid, b := deltas[..at], deltas[at..from], deltas[from..];
    assert deltas == a + mid + b;
    assert forall x | x in mid :: x.address == d.address;
    InBetween(a, d, b);
  }

  lemma InBetween(a: seq<DeltaRule>, d: DeltaRule, b: seq<DeltaRule>)
    requires DeltasAscend(a) && DeltasAscend(b)
    requires (forall x | x in a :: x.address < d.address) && forall x | x in b :: x.address > d.address
    ensures DeltasAscend(a + [d] + b)
  {
    var r := a + [d] + b;
    forall p, q | 0 <= p < q < |r| ensures r[p].address < r[q].address {
      assert p < |a| ==> r[p] in a;
      assert q > |a| ==> r[q] in b;
    }
  }

  /** The rules that a symbol file's STACK CFI records leave in a resolver's module. */
  datatype Loaded = Loaded(initial: seq<Item<string>>, deltas: seq<DeltaRule>)

  /** A record without rules is not accepted; an initial record for a range that overlaps another has no effect. */
  function LoadRecord(l: Loaded, r: Record): Option<Loaded> {
    if r.rules == "" then None
    else
      match r
      case Init(address, size, rules) =>
        (match StoreRange(l.initial, address, size, rules)
         case None => Some(l)
         case Some(after) => Some(l.(initial := after)))
      case Delta(address, rules) => Some(l.(deltas := SetDelta(l.deltas, DeltaRule(address, rules))))
  }

  function LoadFrom(l: Loaded, records: seq<Record>): Option<Loaded> {
    if records == [] then Some(l)
    else
      match LoadFrom(l, records[..|records| - 1])
      case None => None
      case Some(before) => LoadRecord(before, records[|records| - 1])
  }

  const EMPTY := Loaded([], [])

  lemma {:induction false} LoadFromBoth(l: Loaded, a: seq<Record>, b: seq<Record>)
    ensures LoadFrom(l, a + b) == match LoadFrom(l, a) case None => None case Some(between) => LoadFrom(between, b)
    decreases |b|
  {
    if b == [] {
      assert a + b == a;
    } else {
      LoadFromBoth(l, a, b[..|b| - 1]);
      assert (a + b)[..|a + b| - 1] == a + b[..|b| - 1];
    }
  }

  lemma LoadFromOne(l: Loaded, a: seq<Record>, r: Record)
    ensures LoadFrom(l, a + [r]) == match LoadFrom(l, a) case None => None case Some(between) => LoadRecord(between, r)
  {
    assert (a + [r])[..|a|] == a;
  }

  // ---- When all is loaded

  ghost predicate HasRules(e: StackFrameEntry) {
    e.initialRules != [] && forall k | 0 <= k < |e.ruleChanges| :: e.ruleChanges[k].rules != []
  }

  ghost predicate AllHaveText(records: seq<Record>) {
    forall k | 0 <= k < |records| :: records[k].rules != ""
  }

  lemma LoadsIfText(l: Loaded, r: Record)
    ensures LoadRecord(l, r).Some? <==> r.rules != ""
  {
  }

  lemma {:induction false} AllLoadIfText(l: Loaded, records: seq<Record>)
    ensures LoadFrom(l, records).Some? <==> AllHaveText(records)
  {
    if records != [] {
      var n := |records| - 1;
      AllLoadIfText(l, records[..n]);
      if LoadFrom(l, records[..n]).Some? { LoadsIfText(LoadFrom(l, records[..n]).value, records[n]); }
    }
  }

  lemma {:induction false} TextsOfEntry(e: StackFrameEntry, load: Address, m: nat)
    requires m <= |e.ruleChanges|
    ensures AllHaveText(RecordsOf(e, load, m)) <==>
            e.initialRules != [] && forall k | 0 <= k < m :: e.ruleChanges[k].rules != []
  {
    if m == 0 {
      assert RecordsOf(e, load, 0)[0].rules == Text(e.initialRules);
      TextIsEmpty(e.initialRules);
    } else {
      TextsOfEntry(e, load, m - 1);
      TextIsEmpty(e.ruleChanges[m - 1].rules);
      assert [DeltaOf(e.ruleChanges[m - 1], load)][0].rules == Text(e.ruleChanges[m - 1].rules);
      HaveTextBoth(RecordsOf(e, load, m - 1), [DeltaOf(e.ruleChanges[m - 1], load)]);
    }
  }

  lemma HaveTextBoth(a: seq<Record>, b: seq<Record>)
    ensures AllHaveText(a + b) <==> AllHaveText(a) && AllHaveText(b)
  {
    if AllHaveText(a + b) {
      assert forall k | 0 <= k < |a| :: (a + b)[k] == a[k];
      assert forall k | 0 <= k < |b| :: (a + b)[|a| + k] == b[k];
    }
  }

  lemma {:induction false} TextsOfAll(es: seq<StackFrameEntry>, load: Address)
    ensures AllHaveText(AllRecords(es, load)) <==> forall i | 0 <= i < |es| :: HasRules(es[i])
  {
    if es != [] {
      var n := |es| - 1;
      TextsOfAll(es[..n], load);
      TextsOfEntry(es[n], load, |es[n].ruleChanges|);
      HaveTextBoth(AllRecords(es[..n], load), RecordsOf(es[n], load, |es[n].ruleChanges|));
      assert (forall i | 0 <= i < |es| :: HasRules(es[i])) <==>
             HasRules(es[n]) && forall i | 0 <= i < n :: HasRules(es[..n][i]);
    }
  }

  /** A symbol file's records are all accepted exactly if no rule map is empty. */
  lemma AllLoadIfRules(es: seq<StackFrameEntry>, load: Address)
    ensures LoadFrom(EMPTY, AllRecords(es, load)).Some? <==> forall i | 0 <= i < |es| :: HasRules(es[i])
  {
    AllLoadIfText(EMPTY, AllRecords(es, load));
    TextsOfAll(es, load);
  }

  // ---- What is known when all is loaded

  /** The entry does not wrap below the load address or past the end, and its changes are in its range, in order. */
  ghost predicate IsSound(e: StackFrameEntry, load: Address) {
    && load <= e.address && e.size > 0 && e.address - load + e.size <= ADDRESS_LIMIT
    && AreRules(e.initialRules) && HasRules(e)
    && (forall k | 0 <= k < |e.ruleChanges| ::
          AreRules(e.ruleChanges[k].rules) && e.address <= e.ruleChanges[k].address < e.address + e.size)
    && forall j, k | 0 <= j < k < |e.ruleChanges| :: e.ruleChanges[j].address < e.ruleChanges[k].address
  }

  ghost predicate AreApart(d: StackFrameEntry, e: StackFrameEntry) {
    d.address + d.size <= e.address || e.address + e.size <= d.address
  }

  /** Sound entries whose ranges do not overlap. */
  ghost predicate AreSound(es: seq<StackFrameEntry>, load: Address) {
    && (forall i | 0 <= i < |es| :: IsSound(es[i], load))
    && forall i, j {:trigger AreApart(es[i], es[j])} | 0 <= i < j < |es| :: AreApart(es[i], es[j])
  }

  function ItemOf(e: StackFrameEntry, load: Address): Item<string> {
    Item(e.address - load, e.address - load + e.size - 1, Text(e.initialRules))
  }

  function DeltaRuleOf(c: Change, load: Address): DeltaRule {
    DeltaRule(Sub(c.address, load), Text(c.rules))
  }

  /** `d` is one of the first `m` changes of the entry. */
  ghost predicate IsChange(d: DeltaRule, e: StackFrameEntry, load: Address, m: nat)
    requires m <= |e.ruleChanges|
  {
    exists k :: 0 <= k < m && d == DeltaRuleOf(e.ruleChanges[k], load)
  }

  ghost predicate InOrder(l: Loaded) {
    Ordered(l.initial) && DeltasAscend(l.deltas)
  }

  /** Nothing loaded so far concerns the range of the entry. */
  ghost predicate IsNew(l: Loaded, e: StackFrameEntry, load: Address) {
    && (forall x | x in l.initial :: Apart(x, ItemOf(e, load).base, ItemOf(e, load).high))
    && forall d | d in l.deltas :: !(ItemOf(e, load).base <= d.address <= ItemOf(e, load).high)
  }

  /** What is loaded after the first `m` changes of an entry. */
  ghost predicate HasLoaded(l: Loaded, after: Loaded, e: StackFrameEntry, load: Address, m: nat)
    requires m <= |e.ruleChanges|
  {
    && InOrder(after)
    && (forall x :: x in after.initial <==> x in l.initial || x == ItemOf(e, load))
    && (forall d :: d in after.deltas <==> d in l.deltas || IsChange(d, e, load, m))
  }

  lemma InitLoads(l: Loaded, e: StackFrameEntry, load: Address) returns (after: Loaded)
    requires IsSound(e, load) && InOrder(l) && IsNew(l, e, load)
    ensures LoadsAs(l, after, e, load, 0)
  {
    var r := Init(Sub(e.address, load), e.size, Text(e.initialRules));
    var items := InitStores(l, e, load);
    after := l.(initial := items);
    LoadFromOne(l, [], r);
    assert [] + [r] == [r];
    TextIsEmpty(e.initialRules);
  }

  lemma InitStores(l: Loaded, e: StackFrameEntry, load: Address) returns (items: seq<Item<string>>)
    requires IsSound(e, load) && Ordered(l.initial) && IsNew(l, e, load)
    ensures StoreRange(l.initial, Sub(e.address, load), e.size, Text(e.initialRules)) == Some(items) && Ordered(items)
    ensures forall x :: x in items <==> x in l.initial || x == ItemOf(e, load)
  {
    StoreRangeIsRight(l.initial, Sub(e.address, load), e.size, Text(e.initialRules));
    items := StoreRange(l.initial, Sub(e.address, load), e.size, Text(e.initialRules)).value;
  }

  lemma AddressIsNew(l: Loaded, before: Loaded, e: StackFrameEntry, load: Address, m: nat)
    requires IsSound(e, load) && IsNew(l, e, load) && m < |e.ruleChanges| && HasLoaded(l, before, e, load, m)
    ensures forall x | x in before.deltas :: x.address != Sub(e.ruleChanges[m].address, load)
  {
    forall x | x in before.deltas ensures x.address != Sub(e.ruleChanges[m].address, load) {
      if x !in l.deltas {
        var k :| 0 <= k < m && x == DeltaRuleOf(e.ruleChanges[k], load);
        assert e.ruleChanges[k].address < e.ruleChanges[m].address;
      }
    }
  }

  lemma ChangeLoads(l: Loaded, before: Loaded, e: StackFrameEntry, load: Address, m: nat) returns (after: Loaded)
    requires IsSound(e, load) && IsNew(l, e, load) && m < |e.ruleChanges| && HasLoaded(l, before, e, load, m)
    ensures LoadRecord(before, DeltaOf(e.ruleChanges[m], load)) == Some(after) && HasLoaded(l, after, e, load, m + 1)
  {
    var d := DeltaRuleOf(e.ruleChanges[m], load);
    TextIsEmpty(e.ruleChanges[m].rules);
    SetDeltaIsRight(before.deltas, d);
    AddressIsNew(l, before, e, load, m);
    after := before.(deltas := SetDelta(before.deltas, d));
    forall x ensures IsChange(x, e, load, m + 1) <==> IsChange(x, e, load, m) || x == d {
      if k :| 0 <= k < m + 1 && x == DeltaRuleOf(e.ruleChanges[k], load) { assert k < m || x == d; }
    }
  }

  /** The first records of an entry leave this. */
  ghost predicate LoadsAs(l: Loaded, after: Loaded, e: StackFrameEntry, load: Address, m: nat)
    requires m <= |e.ruleChanges|
  {
    LoadFrom(l, RecordsOf(e, load, m)) == Some(after) && HasLoaded(l, after, e, load, m)
  }

  lemma {:induction false} EntryLoads(l: Loaded, e: StackFrameEntry, load: Address, m: nat) returns (after: Loaded)
    requires IsSound(e, load) && InOrder(l) && IsNew(l, e, load) && m <= |e.ruleChanges|
    ensures LoadsAs(l, after, e, load, m)
  {
    hide LoadsAs, IsNew, InOrder;
    if m == 0 {
      after := InitLoads(l, e, load);
    } else {
      var before := EntryLoads(l, e, load, m - 1);
      after := NextLoads(l, before, e, load, m);
    }
  }

  lemma NextLoads(l: Loaded, before: Loaded, e: StackFrameEntry, load: Address, m: nat) returns (after: Loaded)
    requires IsSound(e, load) && IsNew(l, e, load) && 0 < m <= |e.ruleChanges| && LoadsAs(l, before, e, load, m - 1)
    ensures LoadsAs(l, after, e, load, m)
  {
    after := ChangeLoads(l, before, e, load, m - 1);
    LoadFromOne(l, RecordsOf(e, load, m - 1), DeltaOf(e.ruleChanges[m - 1], load));
  }

  /** The loaded rules are those of the entries, and nothing else. */
  ghost predicate Knows(l: Loaded, es: seq<StackFrameEntry>, load: Address)
    requires forall i | 0 <= i < |es| :: IsSound(es[i], load)
  {
    && InOrder(l)
    && (forall x :: x in l.initial <==> exists i :: 0 <= i < |es| && x == ItemOf(es[i], load))
    && (forall d :: d in l.deltas <==> exists i :: 0 <= i < |es| && IsChange(d, es[i], load, |es[i].ruleChanges|))
  }

  lemma LaterIsNew(l: Loaded, es: seq<StackFrameEntry>, n: nat, load: Address)
    requires AreSound(es, load) && n < |es| && Knows(l, es[..n], load)
    ensures IsNew(l, es[n], load)
  {
    forall x | x in l.initial ensures Apart(x, ItemOf(es[n], load).base, ItemOf(es[n], load).high) {
      var i :| 0 <= i < n && x == ItemOf(es[..n][i], load);
      assert AreApart(es[i], es[n]);
    }
    forall d | d in l.deltas ensures !(ItemOf(es[n], load).base <= d.address <= ItemOf(es[n], load).high) {
      var i :| 0 <= i < n && IsChange(d, es[..n][i], load, |es[..n][i].ruleChanges|);
      assert IsSound(es[i], load) && AreApart(es[i], es[n]);
    }
  }

  /** Writing sound entries and loading the records back loses nothing and adds nothing. */
  lemma {:induction false} SoundEntriesLoad(es: seq<StackFrameEntry>, load: Address) returns (l: Loaded)
    requires AreSound(es, load)
    ensures LoadFrom(EMPTY, AllRecords(es, load)) == Some(l) && Knows(l, es, load)
  {
    if es == [] {
      l := EMPTY;
    } else {
      var n := |es| - 1;
      var before := SoundEntriesLoad(es[..n], load);
      LaterIsNew(before, es, n, load);
      l := EntryLoads(before, es[n], load, |es[n].ruleChanges|);
      LoadFromBoth(EMPTY, AllRecords(es[..n], load), RecordsOf(es[n], load, |es[n].ruleChanges|));
      OneEntryMore(before, l, es, load);
    }
  }

  lemma OneEntryMore(before: Loaded, l: Loaded, es: seq<StackFrameEntry>, load: Address)
    requires AreSound(es, load) && es != [] && Knows(before, es[..|es| - 1], load) && InOrder(l)
    requires HasLoaded(before, l, es[|es| - 1], load, |es[|es| - 1].ruleChanges|)
    ensures Knows(l, es, load)
  {
    var n := |es| - 1;
    forall x ensures x in l.initial <==> exists i :: 0 <= i < |es| && x == ItemOf(es[i], load) {
      OneItemMore(es, load, x);
    }
    forall d ensures d in l.deltas <==> exists i :: 0 <= i < |es| && IsChange(d, es[i], load, |es[i].ruleChanges|) {
      OneChangeMore(es, load, d);
    }
  }

  lemma OneItemMore(es: seq<StackFrameEntry>, load: Address, x: Item<string>)
    requires es != []
    ensures var n := |es| - 1;
            (exists i :: 0 <= i < |es| && x == ItemOf(es[i], load)) <==>
            x == ItemOf(es[n], load) || exists i :: 0 <= i < n && x == ItemOf(es[..n][i], load)
  {
    var n := |es| - 1;
    if i :| 0 <= i < n && x == ItemOf(es[..n][i], load) { assert x == ItemOf(es[i], load); }
    if i :| 0 <= i < n && x == ItemOf(es[i], load) { assert x == ItemOf(es[..n][i], load); }
  }

  lemma OneChangeMore(es: seq<StackFrameEntry>, load: Address, d: DeltaRule)
    requires es != []
    ensures var n := |es| - 1;
            (exists i :: 0 <= i < |es| && IsChange(d, es[i], load, |es[i].ruleChanges|)) <==>
            IsChange(d, es[n], load, |es[n].ruleChanges|)
            || exists i :: 0 <= i < n && IsChange(d, es[..n][i], load, |es[..n][i].ruleChanges|)
  {
    var n := |es| - 1;
    if i :| 0 <= i < n && IsChange(d, es[..n][i], load, |es[..n][i].ruleChanges|) {
      assert IsChange(d, es[i], load, |es[i].ruleChanges|);
    }
    if i :| 0 <= i < n && IsChange(d, es[i], load, |es[i].ruleChanges|) {
      assert IsChange(d, es[..n][i], load, |es[..n][i].ruleChanges|);
    }
  }
}
