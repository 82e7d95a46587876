/** CFIFrameInfo::Serialize, and what parsing its result gives. */
module CfiSerialize {
  import opened CfiRules

  /** A register's name and the expression for it. */
  datatype Pair = Pair(name: string, expression: string)

  /** What Serialize writes out, with the registers in the order of `names`. */
  function PairsOf(info: FrameInfo, names: seq<string>): seq<Pair>
    requires forall k | 0 <= k < |names| :: names[k] in info.registers
  {
    Head(info) + RegisterPairs(info, names)
  }

  function Text(pairs: seq<Pair>): string {
    if pairs == [] then ""
    else
      var before, last := Text(pairs[..|pairs| - 1]), pairs[|pairs| - 1];
      before + (if before != "" then " " else "") + last.name + ": " + last.expression
  }

  /** Every register of the map once, as an iterator over std::map comes to them. */
  ghost predicate Lists(names: seq<string>, registers: map<string, string>) {
    && (forall k | 0 <= k < |names| :: names[k] in registers)
    && (forall n | n in registers :: n in names)
    && forall j, k | 0 <= j < k < |names| :: names[j] != names[k]
  }

  method WriteRule(stream: string, name: string, expression: string, ghost before: seq<Pair>) returns (more: string)
    requires stream == Text(before)
    ensures more == Text(before + [Pair(name, expression)])
  {
    assert (before + [Pair(name, expression)])[..|before|] == before;
    more := stream;
    if more != "" { more := more + " "; }
    more := more + name + ": " + expression;
  }

  function Head(info: FrameInfo): seq<Pair> {
    (if info.cfa != "" then [Pair(".cfa", info.cfa)] else []) + (if info.ra != "" then [Pair(".ra", info.ra)] else [])
  }

  function RegisterPairs(info: FrameInfo, names: seq<string>): (pairs: seq<Pair>)
    requires forall k | 0 <= k < |names| :: names[k] in info.registers
    ensures |pairs| == |names|
    ensures forall k | 0 <= k < |names| :: pairs[k] == Pair(names[k], info.registers[names[k]])
  {
    seq(|names|, k requires 0 <= k < |names| => Pair(names[k], info.registers[names[k]]))
  }

  method Serialize(info: CFIFrameInfo, names: seq<string>) returns (stream: string)
    requires Lists(names, info.registerRules)
    ensures stream == Text(PairsOf(info.Info(), names))
  {
    stream := "";
    ghost var written: seq<Pair> := [];
    if info.cfaRule != "" {
      stream := WriteRule(stream, ".cfa", info.cfaRule, []);
      written := [Pair(".cfa", info.cfaRule)];
    }
    if info.raRule != "" {
      stream := WriteRule(stream, ".ra", info.raRule, written);
      written := written + [Pair(".ra", info.raRule)];
    }
    assert written == Head(info.Info());
    stream := WriteRegisters(stream, info.registerRules, names, written, RegisterPairs(info.Info(), names));
  }

  method WriteRegisters(start: string, registers: map<string, string>, names: seq<string>,
                        ghost head: seq<Pair>, ghost pairs: seq<Pair>) returns (stream: string)
    requires start == Text(head) && |pairs| == |names|
    requires forall k | 0 <= k < |names| :: names[k] in registers && pairs[k] == Pair(names[k], registers[names[k]])
    ensures stream == Text(head + pairs)
  {
    stream := start;
    assert head + pairs[..0] == head;
    for k := 0 to |names|
      invariant stream == Text(head + pairs[..k])
    {
      stream := WriteRule(stream, names[k], registers[names[k]], head + pairs[..k]);
      assert head + pairs[..k] + [pairs[k]] == head + pairs[..k + 1];
    }
    assert pairs[..|names|] == pairs;
  }

  // ---- Texts of rules

  function PairOf(rule: Rule): Pair { Pair(rule.name, rule.Expression()) }

  function AllPairs(rules: seq<Rule>): (pairs: seq<Pair>)
    ensures |pairs| == |rules| && forall k | 0 <= k < |pairs| :: pairs[k] == PairOf(rules[k])
  {
    seq(|rules|, k requires 0 <= k < |rules| => PairOf(rules[k]))
  }

  lemma RuleText(rule: Rule)
    requires rule.Valid()
    ensures Joined(rule.Written()) == rule.name + ": " + rule.Expression()
  {
    JoinedBoth([rule.name + ":"], rule.words);
    assert rule.name + ":" + " " == rule.name + ": ";
  }

  lemma TextOneMore(pairs: seq<Pair>, rule: Rule)
    requires rule.Valid()
    ensures Text(pairs + [PairOf(rule)])
         == Text(pairs) + (if Text(pairs) != "" then " " else "") + Joined(rule.Written())
  {
    assert (pairs + [PairOf(rule)])[..|pairs|] == pairs;
    RuleText(rule);
    var before, name, expression := Text(pairs) + (if Text(pairs) != "" then " " else ""), rule.name, rule.Expression();
    assert before + name + ": " + expression == before + (name + ": " + expression);
  }

  lemma WrittenOneMore(rules: seq<Rule>, rule: Rule)
    requires AllValid(rules) && rule.Valid()
    ensures Joined(AllWritten(rules + [rule]))
         == Joined(AllWritten(rules)) + (if Joined(AllWritten(rules)) != "" then " " else "") + Joined(rule.Written())
  {
    assert (rules + [rule])[..|rules|] == rules;
    if rules != [] {
      WrittenIsGrammatical(rules);
      JoinedBoth(AllWritten(rules), rule.Written());
      JoinedOneMore(AllWritten(rules), "x");
    } else {
      assert AllWritten([rule]) == rule.Written();
    }
  }

  /** The text of rules is their words with one space between them. */
  lemma {:induction false} TextIsJoined(rules: seq<Rule>)
    requires AllValid(rules)
    ensures Text(AllPairs(rules)) == Joined(AllWritten(rules))
  {
    if rules != [] {
      var before, last := rules[..|rules| - 1], rules[|rules| - 1];
      TextIsJoined(before);
      assert AllPairs(rules) == AllPairs(before) + [PairOf(last)] && rules == before + [last];
      TextOneMore(AllPairs(before), last);
      WrittenOneMore(before, last);
    }
  }

  /** A list of words is that of at most one list of rules. */
  lemma {:induction false} WrittenIsInjective(a: seq<Rule>, b: seq<Rule>)
    requires AllValid(a) && AllValid(b) && AllWritten(a) == AllWritten(b)
    ensures a == b
    decreases |a|
  {
    if a == [] || b == [] {
      NonEmptyWritten(a);
      NonEmptyWritten(b);
    } else {
      var m, n := |a| - 1, |b| - 1;
      assert a[m].Valid() && b[n].Valid();
      LastRuleIs(AllWritten(a[..m]), a[m], AllWritten(b[..n]), b[n]);
      WrittenIsInjective(a[..m], b[..n]);
      assert a == a[..m] + [a[m]] && b == b[..n] + [b[n]];
    }
  }

  lemma NonEmptyWritten(a: seq<Rule>)
    ensures AllWritten(a) == [] <==> a == []
  {
  }

  lemma LastName(x: seq<string>, r: Rule)
    requires r.Valid()
    ensures var ws := x + r.Written();
            IsName(ws[|x|]) && forall k | |x| < k < |ws| :: !IsName(ws[k])
  {
    var ws := x + r.Written();
    forall k | |x| < k < |ws| ensures !IsName(ws[k]) {
      assert ws[k] == r.words[k - |x| - 1];
    }
  }

  lemma LastRuleIs(x: seq<string>, r: Rule, y: seq<string>, s: Rule)
    requires r.Valid() && s.Valid() && x + r.Written() == y + s.Written()
    ensures x == y && r == s
  {
    var ws := x + r.Written();
    LastName(x, r);
    LastName(y, s);
    assert |x| == |y|;
    assert x == ws[..|x|] && y == ws[..|y|];
    assert r.Written() == ws[|x|..] && s.Written() == ws[|y|..];
    assert r.words == r.Written()[1..] && s.words == s.Written()[1..];
    assert r.name == r.Written()[0][..|r.name|] && s.name == s.Written()[0][..|s.name|];
  }

  // ---- What a parser can make of rule sets

  ghost predicate IsExpression(e: string) {
    exists words :: Rule("x", words).Valid() && e == Joined(words)
  }

  ghost predicate WellFormed(info: FrameInfo) {
    && (info.cfa != "" ==> IsExpression(info.cfa))
    && (info.ra != "" ==> IsExpression(info.ra))
    && forall n | n in info.registers :: IsWord(n) && n != ".cfa" && n != ".ra" && IsExpression(info.registers[n])
  }

  /** Rules that were handed on leave something behind, and it is well formed. */
  lemma {:induction false} AppliedIsWellFormed(info: FrameInfo, rules: seq<Rule>)
    requires WellFormed(info) && AllValid(rules)
    ensures WellFormed(Apply(info, rules)) && (rules != [] ==> Apply(info, rules) != FRESH)
  {
    if rules != [] {
      var n := |rules| - 1;
      AppliedIsWellFormed(info, rules[..n]);
      assert rules[n].Valid();
      SetIsWellFormed(Apply(info, rules[..n]), rules[n]);
    }
  }

  lemma SetIsWellFormed(info: FrameInfo, rule: Rule)
    requires WellFormed(info) && rule.Valid()
    ensures var after := Set(info, rule.name, rule.Expression()); WellFormed(after) && after != FRESH
  {
    assert Rule("x", rule.words).Valid();
    assert IsExpression(rule.Expression());
    JoinedOneMore(rule.words, "x");
  }

  function SetAll(info: FrameInfo, pairs: seq<Pair>): FrameInfo {
    if pairs == [] then info
    else Set(SetAll(info, pairs[..|pairs| - 1]), pairs[|pairs| - 1].name, pairs[|pairs| - 1].expression)
  }

  lemma {:induction false} ApplyIsSetAll(info: FrameInfo, rules: seq<Rule>)
    ensures Apply(info, rules) == SetAll(info, AllPairs(rules))
  {
    if rules != [] {
      ApplyIsSetAll(info, rules[..|rules| - 1]);
      assert AllPairs(rules)[..|rules| - 1] == AllPairs(rules[..|rules| - 1]);
    }
  }

  ghost function Among(registers: map<string, string>, names: seq<string>): map<string, string> {
    map n | n in registers && n in names :: registers[n]
  }

  lemma AmongOneMore(registers: map<string, string>, names: seq<string>, k: nat)
    requires k < |names| && names[k] in registers
    ensures Among(registers, names[..k + 1]) == Among(registers, names[..k])[names[k] := registers[names[k]]]
  {
    assert names[..k + 1] == names[..k] + [names[k]];
  }

  lemma {:induction false} SetAllRegisters(start: FrameInfo, info: FrameInfo, names: seq<string>, k: nat)
    requires Lists(names, info.registers) && k <= |names| && start.registers == map[]
    requires forall n | n in info.registers :: n != ".cfa" && n != ".ra"
    ensures SetAll(start, RegisterPairs(info, names)[..k]) == start.(registers := Among(info.registers, names[..k]))
  {
    if k > 0 {
      var pairs := RegisterPairs(info, names)[..k];
      SetAllRegisters(start, info, names, k - 1);
      assert pairs[..k - 1] == RegisterPairs(info, names)[..k - 1];
      assert pairs[k - 1] == Pair(names[k - 1], info.registers[names[k - 1]]);
      AmongOneMore(info.registers, names, k - 1);
    } else {
      assert Among(info.registers, names[..0]) == map[];
    }
  }

  lemma {:induction false} SetAllBoth(info: FrameInfo, a: seq<Pair>, b: seq<Pair>)
    ensures SetAll(info, a + b) == SetAll(SetAll(info, a), b)
    decreases |b|
  {
    if b == [] {
      assert a + b == a;
    } else {
      SetAllBoth(info, a, b[..|b| - 1]);
      assert (a + b)[..|a + b| - 1] == a + b[..|b| - 1];
    }
  }

  /** Setting all that is written out gives the frame info that was written. */
  lemma SetAllOfPairs(info: FrameInfo, names: seq<string>)
    requires WellFormed(info) && Lists(names, info.registers)
    ensures SetAll(FRESH, PairsOf(info, names)) == info
  {
    var start := FrameInfo(info.cfa, info.ra, map[]);
    HeadSets(info);
    SetAllBoth(FRESH, Head(info), RegisterPairs(info, names));
    SetAllRegisters(start, info, names, |names|);
    assert RegisterPairs(info, names)[..|names|] == RegisterPairs(info, names) && names[..|names|] == names;
    assert Among(info.registers, names) == info.registers;
  }

  lemma SetOne(info: FrameInfo, p: Pair)
    ensures SetAll(info, [p]) == Set(info, p.name, p.expression)
  {
    assert [p][..0] == [];
  }

  lemma HeadSets(info: FrameInfo)
    ensures SetAll(FRESH, Head(info)) == FrameInfo(info.cfa, info.ra, map[])
  {
    var c, r := Pair(".cfa", info.cfa), Pair(".ra", info.ra);
    SetOne(FRESH, c);
    SetOne(FRESH, r);
    SetOne(SetAll(FRESH, [c]), r);
    SetAllBoth(FRESH, [c], [r]);
    HeadCases(info);
  }

  lemma HeadCases(info: FrameInfo)
    ensures var c, r := Pair(".cfa", info.cfa), Pair(".ra", info.ra);
            Head(info) == if info.cfa == "" && info.ra == "" then [] else if info.ra == "" then [c]
                          else if info.cfa == "" then [r] else [c] + [r]
  {
  }

  ghost predicate AreRules(pairs: seq<Pair>) {
    forall k | 0 <= k < |pairs| :: IsWord(pairs[k].name) && IsExpression(pairs[k].expression)
  }

  lemma {:induction false} RulesFor(pairs: seq<Pair>) returns (rules: seq<Rule>)
    requires AreRules(pairs)
    ensures AllValid(rules) && AllPairs(rules) == pairs
  {
    if pairs == [] {
      rules := [];
    } else {
      var n := |pairs| - 1;
      rules := RulesFor(pairs[..n]);
      var words :| Rule("x", words).Valid() && pairs[n].expression == Joined(words);
      var rule := Rule(pairs[n].name, words);
      assert rule.Valid();
      rules := rules + [rule];
    }
  }

  lemma PairsAreRules(info: FrameInfo, names: seq<string>)
    requires WellFormed(info) && Lists(names, info.registers)
    ensures AreRules(PairsOf(info, names))
    ensures PairsOf(info, names) == [] <==> info == FRESH
  {
    var head, registers := Head(info), RegisterPairs(info, names);
    assert IsWord(".cfa") && IsWord(".ra");
    assert AreRules(head);
    forall k | 0 <= k < |registers| ensures IsWord(registers[k].name) && IsExpression(registers[k].expression) {
      assert names[k] in info.registers;
    }
    if names == [] {
      assert forall n | n in info.registers :: n in names;
      assert info.registers == map[];
    } else {
      assert names[0] in info.registers;
    }
  }

  /** What is written of a well-formed frame info is a rule set that gives that frame info. */
  lemma SerializedIsParsedBack(info: FrameInfo, names: seq<string>, rules: seq<Rule>)
    requires WellFormed(info) && Lists(names, info.registers) && info != FRESH
    ensures Grammatical(Words(BeforeNul(Text(PairsOf(info, names)))))
    ensures AllValid(rules) && Words(BeforeNul(Text(PairsOf(info, names)))) == AllWritten(rules) ==>
              Apply(FRESH, rules) == info
  {
    var pairs := PairsOf(info, names);
    PairsAreRules(info, names);
    var written := RulesFor(pairs);
    TextIsJoined(written);
    WrittenIsGrammatical(written);
    JoinedIsPlain(AllWritten(written));
    BeforeNulOfPlain(Joined(AllWritten(written)));
    WordsOfJoined(AllWritten(written));
    ApplyIsSetAll(FRESH, written);
    SetAllOfPairs(info, names);
    if AllValid(rules) && AllWritten(rules) == AllWritten(written) { WrittenIsInjective(rules, written); }
  }

  /** Whatever rule set was accepted into a fresh frame info, writing that and parsing the result gives the same frame
      info again. */
  method Reparse(first: CFIFrameInfo, ghost ruleSet: string, ghost rules: seq<Rule>, names: seq<string>,
                 second: CFIFrameInfo) returns (ok: bool)
    requires Grammatical(Words(BeforeNul(ruleSet))) && Words(BeforeNul(ruleSet)) == AllWritten(rules)
    requires AllValid(rules) && first.Info() == Apply(FRESH, rules)
    requires Lists(names, first.registerRules) && second.Info() == FRESH && first != second
    modifies second
    ensures ok && second.Info() == first.Info() == old(first.Info())
  {
    AppliedIsWellFormed(FRESH, rules);
    assert rules != [];
    var text := Serialize(first, names);
    var parser := new CFIRuleParser(second);
    ghost var again;
    ok, again := parser.Parse(text);
    SerializedIsParsedBack(first.Info(), names, again);
  }
}
