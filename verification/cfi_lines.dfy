/** The text of STACK CFI records, behind the words "STACK CFI". */
module CfiLines {
  import opened Addresses
  import opened CText
  import opened Options

  datatype Record = Init(address: Address, size: Address, rules: string) | Delta(address: Address, rules: string)

  const BLANKS := {' ', '\r', '\n'}
  const LINE_ENDS := {'\r', '\n'}

  function LineOf(r: Record): string {
    match r
    case Init(address, size, rules) => "INIT " + Hex(address) + " " + Hex(size) + " " + rules
    case Delta(address, rules) => Hex(address) + " " + rules
  }

  /** Nothing ends a line or a C string. */
  predicate IsOneLine(s: string) {
    forall k | 0 <= k < |s| :: s[k] !in LINE_ENDS && s[k] != '\0'
  }

  /** What a line says, unless a field is missing. */
  function ParseLine(line: string): Option<Record> {
    var (first, rest) := NextPart(line, BLANKS);
    if first == "" then None
    else if first == "INIT" then
      var (address, afterAddress) := NextPart(rest, BLANKS);
      var (size, afterSize) := NextPart(afterAddress, BLANKS);
      var (rules, _) := NextPart(afterSize, LINE_ENDS);
      if address == "" || size == "" || rules == "" then None else Some(Init(StrToUl(address), StrToUl(size), rules))
    else
      var (rules, _) := NextPart(rest, LINE_ENDS);
      if rules == "" then None else Some(Delta(StrToUl(first), rules))
  }

  lemma HexIsPlain(n: nat)
    ensures HasNone(Hex(n), BLANKS) && Hex(n) != "INIT"
  {
    HexIsDigits(n);
    assert Digit('I') < 0;
  }

  lemma HexPart(n: nat, rest: string)
    ensures NextPart(Hex(n) + " " + rest, BLANKS) == (Hex(n), rest)
  {
    HexIsPlain(n);
    FirstPart(Hex(n), ' ', rest, BLANKS);
  }

  lemma InitIsRead(address: Address, size: Address, rules: string)
    requires IsOneLine(rules)
    ensures ParseLine(LineOf(Init(address, size, rules))) == if rules == "" then None else Some(Init(address, size, rules))
  {
    HexIsPlain(address);
    HexIsPlain(size);
    HexIsRead(address);
    HexIsRead(size);
    FieldsAreRead(Hex(address), Hex(size), rules);
  }

  lemma FieldsAreRead(address: string, size: string, rules: string)
    requires address != "" && HasNone(address, BLANKS) && size != "" && HasNone(size, BLANKS) && IsOneLine(rules)
    ensures ParseLine("INIT " + address + " " + size + " " + rules)
         == if rules == "" then None else Some(Init(StrToUl(address), StrToUl(size), rules))
  {
    var afterAddress, line := size + " " + rules, "INIT " + address + " " + size + " " + rules;
    assert line == "INIT" + [' '] + (address + [' '] + afterAddress) && afterAddress == size + [' '] + rules;
    FirstPart("INIT", ' ', address + [' '] + afterAddress, BLANKS);
    FirstPart(address, ' ', afterAddress, BLANKS);
    FirstPart(size, ' ', rules, BLANKS);
    LastPart(rules, LINE_ENDS);
  }

  lemma DeltaIsRead(address: Address, rules: string)
    requires IsOneLine(rules)
    ensures ParseLine(LineOf(Delta(address, rules))) == if rules == "" then None else Some(Delta(address, rules))
  {
    HexPart(address, rules);
    HexIsPlain(address);
    LastPart(rules, LINE_ENDS);
    HexIsRead(address);
  }

  /** A line that was written is read back, unless it has no rules. */
  lemma LineIsRead(r: Record)
    requires IsOneLine(r.rules)
    ensures ParseLine(LineOf(r)) == if r.rules == "" then None else Some(r)
  {
    match r
    case Init(address, size, rules) => InitIsRead(address, size, rules);
    case Delta(address, rules) => DeltaIsRead(address, rules);
  }

  // ---- The text of a file

  const STACK := "STACK "
  const PREFIX := "STACK CFI "

  function FullLine(r: Record): string {
    PREFIX + LineOf(r)
  }

  function LinesOf(records: seq<Record>): (lines: seq<string>)
    ensures |lines| == |records| && forall k {:trigger lines[k]} | 0 <= k < |lines| :: lines[k] == FullLine(records[k])
  {
    seq(|records|, k requires 0 <= k < |records| => FullLine(records[k]))
  }

  /** Each line with a line end behind it. */
  function Lined(lines: seq<string>): string {
    if lines == [] then "" else Lined(lines[..|lines| - 1]) + (lines[|lines| - 1] + "\n")
  }

  lemma LinedOneMore(records: seq<Record>, r: Record)
    ensures Lined(LinesOf(records + [r])) == Lined(LinesOf(records)) + (FullLine(r) + "\n")
  {
    assert LinesOf(records + [r])[..|records|] == LinesOf(records);
  }

  /** The lines that strtok_r finds, empty ones left out. */
  function LinesIn(text: string): seq<string>
    decreases |text|
  {
    var r := SkipAll(text, LINE_ENDS);
    var (line, rest) := NextPart(text, LINE_ENDS);
    if line == "" then []
    else
      TokenIsThere(text);
      [line] + LinesIn(rest)
  }

  lemma TokenIsThere(text: string)
    ensures var (line, rest) := NextPart(text, LINE_ENDS); line != "" ==> |rest| < |text|
  {
  }

  /** What ParseStackInfo finds in a line: a record of this kind, something for another parser, or nothing it knows. */
  datatype Kind = Cfi(arguments: string) | Other | Unknown

  function KindOf(line: string): Kind {
    if !(STACK <= line) then Other
    else
      var s := SkipAll(line[|STACK|..], {' '});
      var n := TokenLength(s, BLANKS);
      if s[..n] == "CFI" && n < |s| then Cfi(s[n + 1..])
      else if s[..n] == "CFI" || s[..n] == "WIN" then Other
      else Unknown
  }

  lemma KindOfRecord(r: Record)
    ensures KindOf(FullLine(r)) == Cfi(LineOf(r))
  {
    hide LineOf;
    var s := "CFI" + [' '] + LineOf(r);
    assert PREFIX == STACK + ("CFI" + [' ']) && FullLine(r) == STACK + s;
    LengthOfToken("CFI", [' '] + LineOf(r), BLANKS);
    assert s == "CFI" + ([' '] + LineOf(r));
  }

  /** The lines of a text are those that were written into it. */
  lemma {:induction false} LinesAreThere(lines: seq<string>)
    requires AreLines(lines)
    ensures LinesIn(Lined(lines)) == lines
    decreases |lines|
  {
    hide LinesIn;
    if lines == [] {
      NoLines();
    } else {
      var n := |lines| - 1;
      LinesAreThere(lines[..n]);
      TextEndsLine(lines[..n]);
      LastLine(Lined(lines[..n]), Lined(lines), lines[..n], lines[n]);
    }
  }

  lemma NoLines()
    ensures LinesIn("") == []
  {
  }

  ghost predicate AreLines(lines: seq<string>) {
    forall k | 0 <= k < |lines| :: IsOneLine(lines[k]) && lines[k] != ""
  }

  lemma TextEndsLine(lines: seq<string>)
    ensures EndsLine(Lined(lines))
  {
  }

  lemma LastLine(text: string, whole: string, before: seq<string>, line: string)
    requires LinesIn(text) == before && EndsLine(text) && IsOneLine(line) && line != "" && whole == text + (line + "\n")
    ensures LinesIn(whole) == before + [line]
  {
    LinesBoth(text, line);
  }

  lemma RecordsAreThere(records: seq<Record>)
    requires forall k | 0 <= k < |records| :: IsOneLine(records[k].rules)
    ensures LinesIn(Lined(LinesOf(records))) == LinesOf(records)
  {
    assert AreLines(LinesOf(records)) by {
      forall k | 0 <= k < |records| ensures IsOneLine(LinesOf(records)[k]) && LinesOf(records)[k] != "" {
        LineIsOneLine(records[k]);
      }
    }
    LinesAreThere(LinesOf(records));
  }

  lemma LineIsOneLine(r: Record)
    requires IsOneLine(r.rules)
    ensures IsOneLine(FullLine(r)) && FullLine(r) != ""
  {
    HexIsOneLine(r.address);
    if r.Init? { HexIsOneLine(r.size); }
  }

  lemma HexIsOneLine(n: nat)
    ensures IsOneLine(Hex(n))
  {
    HexIsDigits(n);
  }

  predicate EndsLine(text: string) {
    text == "" || text[|text| - 1] == '\n'
  }

  lemma {:induction false} LinesBoth(text: string, line: string)
    requires EndsLine(text) && line != "" && IsOneLine(line)
    ensures LinesIn(text + (line + "\n")) == LinesIn(text) + [line]
    decreases |text|
  {
    if text == "" {
      assert text + (line + "\n") == line + ['\n'] + "";
      FirstPart(line, '\n', "", LINE_ENDS);
      assert LinesIn("") == [];
    } else if text[0] in LINE_ENDS {
      assert (text + (line + "\n"))[1..] == text[1..] + (line + "\n");
      SkipsOne(text);
      SkipsOne(text + (line + "\n"));
      LinesBoth(text[1..], line);
    } else {
      var (first, rest) := NextPart(text, LINE_ENDS);
      var n := TokenLength(text, LINE_ENDS);
      TokenEnds(text);
      assert text == text[..n] + [text[n]] + rest;
      FirstPart(text[..n], text[n], rest + (line + "\n"), LINE_ENDS);
      assert text + (line + "\n") == text[..n] + [text[n]] + (rest + (line + "\n"));
      assert rest == "" || rest[|rest| - 1] == text[|text| - 1];
      LinesBoth(rest, line);
    }
  }

  lemma SkipsOne(text: string)
    requires text != "" && text[0] in LINE_ENDS
    ensures LinesIn(text) == LinesIn(text[1..])
  {
    assert SkipAll(text, LINE_ENDS) == SkipAll(text[1..], LINE_ENDS);
    assert NextPart(text, LINE_ENDS) == NextPart(text[1..], LINE_ENDS);
  }

  lemma {:induction false} TokenEnds(text: string)
    requires text != "" && text[|text| - 1] in LINE_ENDS
    ensures var n := TokenLength(text, LINE_ENDS); n < |text| && text[n] in LINE_ENDS && HasNone(text[..n], LINE_ENDS)
  {
    if text[0] !in LINE_ENDS {
      TokenEnds(text[1..]);
      var n := TokenLength(text[1..], LINE_ENDS);
      assert forall k | 0 < k < n + 1 :: text[k] == text[1..][..n][k - 1];
    }
  }
}
