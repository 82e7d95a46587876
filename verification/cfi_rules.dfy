/** STACK CFI rules: the parser of rule sets, and the form in which they are written. */
module CfiRules {

  // ---- Words

  /** The characters strtok_r breaks a rule set at. */
  predicate IsBreak(c: char) {
    c == ' ' || c == '\t' || c == '\r' || c == '\n'
  }

  predicate IsWord(w: string) {
    w != "" && forall k | 0 <= k < |w| :: !IsBreak(w[k]) && w[k] != '\0'
  }

  ghost predicate AllWords(ws: seq<string>) {
    forall k | 0 <= k < |ws| :: IsWord(ws[k])
  }

  /** A C string ends at its first NUL. */
  function BeforeNul(s: string): string {
    if s == "" || s[0] == '\0' then "" else [s[0]] + BeforeNul(s[1..])
  }

  function SkipBreaks(s: string): (r: string)
    ensures |r| <= |s| && (r != "" ==> !IsBreak(r[0]))
  {
    if s != "" && IsBreak(s[0]) then SkipBreaks(s[1..]) else s
  }

  function WordLength(s: string): (n: nat)
    ensures n <= |s| && (s != "" && !IsBreak(s[0]) ==> n > 0)
  {
    if s == "" || IsBreak(s[0]) then 0 else 1 + WordLength(s[1..])
  }

  /** What strtok_r hands out, one after the other. */
  function Words(s: string): seq<string>
    decreases |s|
  {
    var r := SkipBreaks(s);
    if r == "" then [] else [r[..WordLength(r)]] + Words(r[WordLength(r)..])
  }

  /** Words with one space between them. */
  function Joined(ws: seq<string>): string {
    if ws == [] then "" else if |ws| == 1 then ws[0] else ws[0] + " " + Joined(ws[1..])
  }

  lemma {:induction false} WordLengthOf(w: string, rest: string)
    requires IsWord(w) && (rest == "" || IsBreak(rest[0]))
    ensures WordLength(w + rest) == |w|
  {
    assert (w + rest)[1..] == w[1..] + rest;
    if |w| > 1 {
      WordLengthOf(w[1..], rest);
    } else {
      assert w[1..] + rest == rest;
    }
  }

  /** Joining words and taking the string apart again gives the words. */
  lemma {:induction false} WordsOfJoined(ws: seq<string>)
    requires AllWords(ws)
    ensures Words(Joined(ws)) == ws
    decreases |ws|
  {
    if ws != [] {
      var w, rest := ws[0], if |ws| == 1 then "" else " " + Joined(ws[1..]);
      assert Joined(ws) == w + rest;
      WordLengthOf(w, rest);
      assert SkipBreaks(w + rest) == w + rest;
      assert (w + rest)[..|w|] == w && (w + rest)[|w|..] == rest;
      assert Words(w + rest) == [w] + Words(rest);
      if |ws| > 1 {
        WordsOfJoined(ws[1..]);
        assert rest[1..] == Joined(ws[1..]);
        BreakInFront(Joined(ws[1..]));
      }
    }
  }

  lemma BreakInFront(s: string)
    ensures Words(" " + s) == Words(s)
  {
    assert (" " + s)[1..] == s;
    assert SkipBreaks(" " + s) == SkipBreaks(s);
  }

  lemma {:induction false} WordsAreWords(s: string)
    requires forall k | 0 <= k < |s| :: s[k] != '\0'
    ensures AllWords(Words(s))
    decreases |s|
  {
    var r := SkipBreaks(s);
    SkipBreaksKeeps(s);
    if r != "" {
      WordLengthIsRight(r);
      WordsAreWords(r[WordLength(r)..]);
    }
  }

  lemma {:induction false} SkipBreaksKeeps(s: string)
    requires forall k | 0 <= k < |s| :: s[k] != '\0'
    ensures forall k | 0 <= k < |SkipBreaks(s)| :: SkipBreaks(s)[k] != '\0'
  {
    if s != "" && IsBreak(s[0]) { SkipBreaksKeeps(s[1..]); }
  }

  lemma {:induction false} WordLengthIsRight(s: string)
    ensures forall k | 0 <= k < WordLength(s) :: !IsBreak(s[k])
  {
    if s != "" && !IsBreak(s[0]) {
      WordLengthIsRight(s[1..]);
      forall k | 0 <= k < WordLength(s) ensures !IsBreak(s[k]) {
        if k > 0 { assert s[k] == s[1..][k - 1]; }
      }
    }
  }

  lemma {:induction false} BeforeNulHasNone(s: string)
    ensures forall k | 0 <= k < |BeforeNul(s)| :: BeforeNul(s)[k] != '\0'
  {
    if s != "" && s[0] != '\0' { BeforeNulHasNone(s[1..]); }
  }

  lemma {:induction false} BeforeNulOfPlain(s: string)
    requires forall k | 0 <= k < |s| :: s[k] != '\0'
    ensures BeforeNul(s) == s
  {
    if s != "" { BeforeNulOfPlain(s[1..]); }
  }

  lemma {:induction false} JoinedIsPlain(ws: seq<string>)
    requires AllWords(ws)
    ensures forall k | 0 <= k < |Joined(ws)| :: Joined(ws)[k] != '\0'
    decreases |ws|
  {
    if |ws| > 1 { JoinedIsPlain(ws[1..]); }
  }

  lemma {:induction false} JoinedBoth(a: seq<string>, b: seq<string>)
    requires a != [] && b != []
    ensures Joined(a + b) == Joined(a) + " " + Joined(b)
    decreases |a|
  {
    assert (a + b)[1..] == a[1..] + b;
    if |a| > 1 {
      JoinedBoth(a[1..], b);
    } else {
      assert a[1..] + b == b;
    }
  }

  // ---- Rules

  /** A word that ends in a colon names the register that the words after it are for. */
  predicate IsName(w: string) {
    w != "" && w[|w| - 1] == ':'
  }

  /** A rule: a register's name, and the words of the expression that recovers it. */
  datatype Rule = Rule(name: string, words: seq<string>) {
    ghost predicate Valid() {
      IsWord(name) && words != [] && AllWords(words) && forall k | 0 <= k < |words| :: !IsName(words[k])
    }

    function Expression(): string { Joined(words) }

    /** The words of the rule in a rule set. */
    function Written(): seq<string> { [name + ":"] + words }
  }

  ghost predicate AllValid(rules: seq<Rule>) {
    forall k | 0 <= k < |rules| :: rules[k].Valid()
  }

  function AllWritten(rules: seq<Rule>): seq<string> {
    if rules == [] then [] else AllWritten(rules[..|rules| - 1]) + rules[|rules| - 1].Written()
  }

  /** A rule set begins with a name; each name has an expression after it; and no name is empty. */
  ghost predicate Grammatical(ws: seq<string>) {
    && ws != [] && IsName(ws[0])
    && forall k | 0 <= k < |ws| && IsName(ws[k]) :: |ws[k]| >= 2 && k + 1 < |ws| && !IsName(ws[k + 1])
  }

  /** What is written of valid rules is grammatical. */
  lemma {:induction false} WrittenIsGrammatical(rules: seq<Rule>)
    requires AllValid(rules) && rules != []
    ensures Grammatical(AllWritten(rules)) && AllWords(AllWritten(rules))
    ensures !IsName(AllWritten(rules)[|AllWritten(rules)| - 1])
  {
    var n := |rules| - 1;
    var before, last := AllWritten(rules[..n]), rules[n].Written();
    RuleIsGrammatical(rules[n]);
    if n > 0 {
      WrittenIsGrammatical(rules[..n]);
      GrammaticalBoth(before, last);
    } else {
      assert before + last == last;
    }
  }

  lemma RuleIsGrammatical(rule: Rule)
    requires rule.Valid()
    ensures Grammatical(rule.Written()) && AllWords(rule.Written()) && !IsName(rule.Written()[|rule.Written()| - 1])
  {
    var ws := rule.Written();
    assert IsWord(ws[0]) by { assert forall k | 0 <= k < |rule.name| :: ws[0][k] == rule.name[k]; }
    assert forall k | 0 < k < |ws| :: ws[k] == rule.words[k - 1];
  }

  lemma GrammaticalBoth(a: seq<string>, b: seq<string>)
    requires Grammatical(a) && !IsName(a[|a| - 1]) && Grammatical(b)
    ensures Grammatical(a + b)
  {
    var ws := a + b;
    forall k | 0 <= k < |ws| && IsName(ws[k]) ensures |ws[k]| >= 2 && k + 1 < |ws| && !IsName(ws[k + 1]) {
      if k < |a| {
        assert IsName(a[k]);
      } else {
        assert IsName(b[k - |a|]);
      }
    }
  }

  lemma {:induction false} JoinedOneMore(ws: seq<string>, w: string)
    requires AllWords(ws) && IsWord(w)
    ensures Joined(ws + [w]) == (if ws == [] then "" else Joined(ws) + " ") + w
    ensures Joined(ws) == "" <==> ws == []
  {
    if ws != [] {
      JoinedBoth(ws, [w]);
      assert Joined(ws) == ws[0] || Joined(ws) == ws[0] + " " + Joined(ws[1..]);
    } else {
      assert ws + [w] == [w];
    }
  }

  /** The words of a rule set that have been read: whole rules, and a rule that is being gathered. */
  ghost predicate Gathered(done: seq<string>, rules: seq<Rule>, name: string, words: seq<string>) {
    && AllValid(rules) && AllWords(words) && (forall k | 0 <= k < |words| :: !IsName(words[k]))
    && if name == "" then rules == [] && done == words
       else IsWord(name) && done == AllWritten(rules) + ([name + ":"] + words)
  }

  lemma GatherName(done: seq<string>, rules: seq<Rule>, name: string, words: seq<string>, word: string)
    requires Gathered(done, rules, name, words) && IsWord(word) && IsName(word) && |word| >= 2
    requires name == "" <==> words == []
    ensures Gathered(done + [word], if name == "" then rules else rules + [Rule(name, words)], word[..|word| - 1], [])
  {
    assert word == word[..|word| - 1] + ":";
    if name != "" {
      var more := rules + [Rule(name, words)];
      assert more[..|more| - 1] == rules;
      assert AllWritten(more) == done;
    }
  }

  lemma GatherWord(done: seq<string>, rules: seq<Rule>, name: string, words: seq<string>, word: string)
    requires Gathered(done, rules, name, words) && IsWord(word) && !IsName(word)
    ensures Gathered(done + [word], rules, name, words + [word])
  {
    if name != "" { assert done + [word] == AllWritten(rules) + ([name + ":"] + (words + [word])); }
  }

  /** A name after nothing but a name, or after an expression without one, or an empty name. */
  lemma NotGrammatical(done: seq<string>, rules: seq<Rule>, name: string, words: seq<string>, word: string, rest: seq<string>)
    requires Gathered(done, rules, name, words) && IsName(word)
    requires |word| < 2 || (name == "" && words != []) || (name != "" && words == [])
    ensures !Grammatical(done + [word] + rest)
  {
    var ws := done + [word] + rest;
    assert ws[|done|] == word;
    if name != "" && words == [] {
      var k := |done| - 1;
      assert ws[k] == name + ":" && ws[k + 1] == word;
    }
    if name == "" && words != [] { assert ws[0] == words[0]; }
  }

  lemma GatheredAll(done: seq<string>, rules: seq<Rule>, name: string, words: seq<string>)
    requires Gathered(done, rules, name, words)
    ensures Grammatical(done) <==> name != "" && words != []
    ensures name != "" && words != [] ==> done == AllWritten(rules + [Rule(name, words)]) && Rule(name, words).Valid()
  {
    if name != "" && words != [] {
      var more := rules + [Rule(name, words)];
      assert more[..|more| - 1] == rules;
      WrittenIsGrammatical(more);
    } else if name != "" {
      assert done[|done| - 1] == name + ":";
    }
  }

  // ---- The rules that a parser hands on, whether or not it gets to the end

  /** Where a parser is after some words: the rules that are complete, and the one that is not; or that it has given up. */
  datatype Parsed = Parsed(refused: bool, rules: seq<Rule>, name: string, words: seq<string>)

  function Taken(p: Parsed, w: string): Parsed {
    if p.refused then p
    else if !IsName(w) then p.(words := p.words + [w])
    else if |w| < 2 || (p.name == "" && p.words != []) || (p.name != "" && p.words == []) then p.(refused := true)
    else Parsed(false, if p.name == "" then p.rules else p.rules + [Rule(p.name, p.words)], w[..|w| - 1], [])
  }

  function After(ws: seq<string>): Parsed {
    if ws == [] then Parsed(false, [], "", []) else Taken(After(ws[..|ws| - 1]), ws[|ws| - 1])
  }

  function HandedOn(ws: seq<string>): seq<Rule> {
    var p := After(ws);
    if !p.refused && p.name != "" && p.words != [] then p.rules + [Rule(p.name, p.words)] else p.rules
  }

  lemma AfterOneMore(ws: seq<string>, w: string)
    ensures After(ws + [w]) == Taken(After(ws), w)
  {
    assert (ws + [w])[..|ws|] == ws;
  }

  lemma {:induction false} RefusedStays(a: seq<string>, b: seq<string>)
    requires After(a).refused
    ensures After(a + b) == After(a)
    decreases |b|
  {
    if b == [] {
      assert a + b == a;
    } else {
      RefusedStays(a, b[..|b| - 1]);
      AfterOneMore(a + b[..|b| - 1], b[|b| - 1]);
      assert a + b[..|b| - 1] + [b[|b| - 1]] == a + b;
    }
  }

  lemma {:induction false} AfterWords(before: seq<string>, name: string, words: seq<string>)
    requires forall k | 0 <= k < |words| :: !IsName(words[k])
    requires !After(before).refused && After(before).words == []
    ensures After(before + words) == After(before).(words := words)
    decreases |words|
  {
    if words == [] {
      assert before + words == before;
    } else {
      var n := |words| - 1;
      AfterWords(before, name, words[..n]);
      AfterOneMore(before + words[..n], words[n]);
      assert before + words == before + words[..n] + [words[n]];
      assert words == words[..n] + [words[n]];
    }
  }

  /** What is written of valid rules is handed on as these. */
  lemma {:induction false} WrittenIsHandedOn(rules: seq<Rule>)
    requires AllValid(rules)
    ensures HandedOn(AllWritten(rules)) == rules
    ensures rules != [] ==> var n := |rules| - 1;
              After(AllWritten(rules)) == Parsed(false, rules[..n], rules[n].name, rules[n].words)
    decreases |rules|
  {
    if rules != [] {
      var n := |rules| - 1;
      var before, last := AllWritten(rules[..n]), rules[n];
      WrittenIsHandedOn(rules[..n]);
      assert rules[n].Valid();
      AfterOneMore(before, last.name + ":");
      assert (last.name + ":")[..|last.name|] == last.name;
      if n > 0 {
        assert rules[n - 1].Valid();
        assert rules[..n] == rules[..n][..n - 1] + [Rule(rules[n - 1].name, rules[n - 1].words)];
      }
      AfterWords(before + [last.name + ":"], last.name, last.words);
      assert before + last.Written() == before + [last.name + ":"] + last.words;
      assert rules == rules[..n] + [last];
    }
  }

  lemma ApplyOneMore(info: FrameInfo, rules: seq<Rule>, rule: Rule)
    ensures Apply(info, rules + [rule]) == Set(Apply(info, rules), rule.name, rule.Expression())
  {
    assert (rules + [rule])[..|rules|] == rules;
  }

  // ---- What the rules say

  datatype FrameInfo = FrameInfo(cfa: string, ra: string, registers: map<string, string>)

  const FRESH := FrameInfo("", "", map[])

  function Set(info: FrameInfo, name: string, expression: string): FrameInfo {
    if name == ".cfa" then info.(cfa := expression)
    else if name == ".ra" then info.(ra := expression)
    else info.(registers := info.registers[name := expression])
  }

  function Apply(info: FrameInfo, rules: seq<Rule>): FrameInfo {
    if rules == [] then info
    else Set(Apply(info, rules[..|rules| - 1]), rules[|rules| - 1].name, rules[|rules| - 1].Expression())
  }

  class CFIFrameInfo {
    var cfaRule: string
    var raRule: string
    var registerRules: map<string, string>

    constructor ()
      ensures Info() == FRESH
    {
      cfaRule, raRule, registerRules := "", "", map[];
    }

    function Info(): FrameInfo
      reads this
    {
      FrameInfo(cfaRule, raRule, registerRules)
    }
  }

  class CFIRuleParser {
    const info: CFIFrameInfo
    var name: string
    var expression: string

    constructor (info: CFIFrameInfo)
      ensures this.info == info
    {
      this.info, name, expression := info, "", "";
    }

    /** Hand on the rule that has been gathered, if it is one. */
    method Report() returns (ok: bool)
      modifies info
      ensures ok <==> name != "" && expression != ""
      ensures info.Info() == if ok then Set(old(info.Info()), name, expression) else old(info.Info())
    {
      if name == "" || expression == "" { return false; }
      if name == ".cfa" {
        info.cfaRule := expression;
      } else if name == ".ra" {
        info.raRule := expression;
      } else {
        info.registerRules := info.registerRules[name := expression];
      }
      return true;
    }

    ghost predicate Gathers(done: seq<string>, rules: seq<Rule>, words: seq<string>)
      reads this
    {
      Gathered(done, rules, name, words) && expression == Joined(words) && (expression == "" <==> words == [])
    }

    /** A name: the rule before it is complete. */
    method TakeName(token: string, ghost done: seq<string>, ghost before: seq<Rule>, ghost words: seq<string>,
                    ghost after: seq<string>, ghost had: FrameInfo)
      returns (ok: bool, ghost rules: seq<Rule>)
      requires Gathers(done, before, words) && IsWord(token) && IsName(token) && info.Info() == Apply(had, before)
      modifies this, info
      ensures AllValid(rules)
      ensures info.Info() == Apply(had, rules)
      ensures if ok then Gathers(done + [token], rules, [])
              else !Grammatical(done + [token] + after)
      ensures var p := Taken(Parsed(false, before, old(name), words), token);
              if ok then p == Parsed(false, rules, name, []) else p.refused && rules == before
    {
      rules := before;
      if |token| < 2 || (name == "" && words != []) || (name != "" && words == []) {
        NotGrammatical(done, before, name, words, token, after);
      }
      if |token| < 2 { return false, rules; }
      if name != "" || expression != "" {
        ok := Report();
        if !ok { return; }
        ApplyOneMore(had, before, Rule(name, words));
      }
      GatherName(done, before, name, words, token);
      rules := if name == "" then before else before + [Rule(name, words)];
      name, expression := token[..|token| - 1], "";
      ok := true;
    }

    /** Another part of the expression. */
    method TakeWord(token: string, ghost done: seq<string>, ghost rules: seq<Rule>, ghost words: seq<string>)
      requires Gathers(done, rules, words) && IsWord(token) && !IsName(token)
      modifies `expression
      ensures Gathers(done + [token], rules, words + [token])
    {
      GatherWord(done, rules, name, words, token);
      JoinedOneMore(words, token);
      if expression != "" { expression := expression + " "; }
      expression := expression + token;
    }

    /** The end of the rule set: the last rule is complete. */
    method TakeEnd(ghost done: seq<string>, ghost before: seq<Rule>, ghost words: seq<string>, ghost had: FrameInfo)
      returns (ok: bool, ghost rules: seq<Rule>)
      requires Gathers(done, before, words) && info.Info() == Apply(had, before)
      modifies info
      ensures AllValid(rules)
      ensures info.Info() == Apply(had, rules)
      ensures ok <==> Grammatical(done)
      ensures ok ==> done == AllWritten(rules)
      ensures rules == if name != "" && words != [] then before + [Rule(name, words)] else before
    {
      GatheredAll(done, before, name, words);
      rules := before;
      ok := Report();
      if ok {
        ApplyOneMore(had, before, Rule(name, words));
        rules := before + [Rule(name, words)];
      }
    }

    /** Parse a rule set. `rules` are those that are handed on, all of them if the set is grammatical. */
    method Parse(ruleSet: string) returns (ok: bool, ghost rules: seq<Rule>)
      modifies this, info
      ensures AllValid(rules) && info.Info() == Apply(old(info.Info()), rules)
      ensures ok <==> Grammatical(Words(BeforeNul(ruleSet)))
      ensures ok ==> Words(BeforeNul(ruleSet)) == AllWritten(rules)
      ensures rules == HandedOn(Words(BeforeNul(ruleSet)))
    {
      name, expression, rules := "", "", [];
      BeforeNulHasNone(ruleSet);
      ghost var all, done, had := Words(BeforeNul(ruleSet)), [], info.Info();
      var token, cursor := NextToken(BeforeNul(ruleSet));
      while token != ""
        invariant At(all, done, rules, token, cursor, had)
        decreases |cursor| + |token|
      {
        ghost var taken := token;
        ok, token, cursor, rules := Turn(token, cursor, all, done, rules, had);
        if !ok { return; }
        done := done + [taken];
      }
      assert done == all;
      ok, rules := TakeEnd(done, rules, After(done).words, had);
    }

    /** What holds at the head of the loop, with a token at hand. */
    ghost predicate At(all: seq<string>, done: seq<string>, rules: seq<Rule>, token: string, cursor: string, had: FrameInfo)
      reads this, info
    {
      && HasNoNul(cursor) && (token == "" || IsWord(token)) && all == done + Left(token, cursor)
      && IsAfter(done, rules) && info.Info() == Apply(had, rules)
    }

    /** Take a token, and get the next. */
    method Turn(token: string, cursor: string, ghost all: seq<string>, ghost done: seq<string>, ghost before: seq<Rule>,
                ghost had: FrameInfo)
      returns (ok: bool, token': string, cursor': string, ghost rules: seq<Rule>)
      requires token != "" && At(all, done, before, token, cursor, had)
      modifies this, info
      ensures ok ==> At(all, done + [token], rules, token', cursor', had) && |cursor'| + |token'| < |cursor| + |token|
      ensures !ok ==> AllValid(rules) && info.Info() == Apply(had, rules) && !Grammatical(all) && rules == HandedOn(all)
    {
      token', cursor' := token, cursor;
      ghost var left := Words(cursor);
      assert all == done + [token] + left;
      ok, rules := Take(token, done, before, left, had);
      if !ok { return; }
      token', cursor' := NextToken(cursor);
      assert left == Left(token', cursor');
    }

    /** The words that are still to come. */
    ghost function Left(token: string, cursor: string): seq<string> {
      if token == "" then [] else [token] + Words(cursor)
    }

    /** Where the parser is. */
    ghost predicate IsAfter(done: seq<string>, rules: seq<Rule>)
      reads this
    {
      var p := After(done);
      !p.refused && p.rules == rules && p.name == name && Gathers(done, rules, p.words)
    }

    /** The body of the loop. */
    method Take(token: string, ghost done: seq<string>, ghost before: seq<Rule>, ghost after: seq<string>,
                ghost had: FrameInfo)
      returns (ok: bool, ghost rules: seq<Rule>)
      requires IsAfter(done, before) && IsWord(token) && info.Info() == Apply(had, before)
      modifies this, info
      ensures AllValid(rules)
      ensures info.Info() == Apply(had, rules)
      ensures if ok then IsAfter(done + [token], rules)
              else !Grammatical(done + [token] + after) && rules == HandedOn(done + [token] + after)
    {
      AfterOneMore(done, token);
      ghost var words := After(done).words;
      if IsName(token) {
        ok, rules := TakeName(token, done, before, words, after, had);
        if !ok { RefusedStays(done + [token], after); }
      } else {
        TakeWord(token, done, before, words);
        ok, rules := true, before;
      }
    }
  }

  ghost predicate HasNoNul(s: string) {
    forall k | 0 <= k < |s| :: s[k] != '\0'
  }

  /** strtok_r: the next word, or none. */
  method NextToken(s: string) returns (token: string, rest: string)
    requires HasNoNul(s)
    ensures HasNoNul(rest) && |rest| + |token| <= |s|
    ensures if token == "" then Words(s) == [] else IsWord(token) && Words(s) == [token] + Words(rest)
  {
    WordsAreWords(s);
    SkipBreaksKeeps(s);
    rest := SkipBreaks(s);
    if rest == "" { return "", rest; }
    token := rest[..WordLength(rest)];
    rest := rest[WordLength(rest)..];
    assert Words(s)[0] == token;
  }
}
