/** Pieces of the C library for text: strtok_r, strtoul in base 16, and unsigned numbers printed in base 16. */
module CText {
  import opened Addresses

  // ---- strtok_r

  function SkipAll(s: string, delimiters: set<char>): (r: string)
    ensures |r| <= |s|
  {
    if s != "" && s[0] in delimiters then SkipAll(s[1..], delimiters) else s
  }

  function TokenLength(s: string, delimiters: set<char>): (n: nat)
    ensures n <= |s|
  {
    if s == "" || s[0] in delimiters then 0 else 1 + TokenLength(s[1..], delimiters)
  }

  /** The next token, empty if there is none, and what is left behind the delimiter that ends it. */
  function NextPart(s: string, delimiters: set<char>): (string, string) {
    var r := SkipAll(s, delimiters);
    var n := TokenLength(r, delimiters);
    (r[..n], if n < |r| then r[n + 1..] else "")
  }

  predicate HasNone(s: string, delimiters: set<char>) {
    forall k | 0 <= k < |s| :: s[k] !in delimiters
  }

  lemma {:induction false} LengthOfToken(t: string, rest: string, delimiters: set<char>)
    requires HasNone(t, delimiters) && (rest == "" || rest[0] in delimiters)
    ensures TokenLength(t + rest, delimiters) == |t|
  {
    if t == "" {
      assert t + rest == rest;
    } else {
      LengthOfToken(t[1..], rest, delimiters);
      assert (t + rest)[1..] == t[1..] + rest;
    }
  }

  /** A token without delimiters is taken off, with the one that ends it. */
  lemma FirstPart(t: string, d: char, rest: string, delimiters: set<char>)
    requires t != "" && HasNone(t, delimiters) && d in delimiters
    ensures NextPart(t + [d] + rest, delimiters) == (t, rest)
  {
    LengthOfToken(t, [d] + rest, delimiters);
    assert t + [d] + rest == t + ([d] + rest);
    assert (t + ([d] + rest))[|t| + 1..] == rest;
  }

  lemma LastPart(t: string, delimiters: set<char>)
    requires HasNone(t, delimiters)
    ensures NextPart(t, delimiters) == (t, "")
  {
    LengthOfToken(t, "", delimiters);
    assert t + "" == t;
  }

  // ---- Base 16

  function DigitFor(d: nat): (c: char)
    requires d < 16
    ensures Digit(c) == d
  {
    if d < 10 then '0' + d as char else 'a' + (d - 10) as char
  }

  function Digit(c: char): (d: int)
    ensures -1 <= d < 16
  {
    if '0' <= c <= '9' then c as int - '0' as int
    else if 'a' <= c <= 'f' then c as int - 'a' as int + 10
    else if 'A' <= c <= 'F' then c as int - 'A' as int + 10
    else -1
  }

  /** A number as a stream in mode std::hex prints it. */
  function Hex(n: nat): (s: string)
    ensures s != ""
  {
    if n < 16 then [DigitFor(n)] else Hex(n / 16) + [DigitFor(n % 16)]
  }

  /** The digits up to the first character that is none. */
  function HexValue(s: string, before: nat): nat {
    if s == "" || Digit(s[0]) < 0 then before else HexValue(s[1..], 16 * before + Digit(s[0]))
  }

  predicate IsSpace(c: char) {
    c == ' ' || '\t' <= c <= '\r'
  }

  function SkipSpace(s: string): string {
    if s != "" && IsSpace(s[0]) then SkipSpace(s[1..]) else s
  }

  /** strtoul(s, NULL, 16), where a long has 64 bits: a sign and a prefix are skipped, too large a number is the greatest, and
      the negative of a number wraps around. */
  function StrToUl(s: string): Address {
    var r := SkipSpace(s);
    var negative := r != "" && r[0] == '-';
    var t := if r != "" && (r[0] == '-' || r[0] == '+') then r[1..] else r;
    var u := if |t| > 2 && t[0] == '0' && (t[1] == 'x' || t[1] == 'X') && Digit(t[2]) >= 0 then t[2..] else t;
    var n := HexValue(u, 0);
    if n >= ADDRESS_LIMIT then ADDRESS_LIMIT - 1 else if negative then Sub(0, n) else n
  }

  lemma {:induction false} HexIsDigits(n: nat)
    ensures forall k | 0 <= k < |Hex(n)| :: Digit(Hex(n)[k]) >= 0
    ensures HexValue(Hex(n), 0) == n
  {
    if n >= 16 {
      HexIsDigits(n / 16);
      HexValueBoth(Hex(n / 16), [DigitFor(n % 16)], 0);
      assert HexValue([DigitFor(n % 16)], n / 16) == HexValue("", 16 * (n / 16) + n % 16);
    } else {
      assert HexValue([DigitFor(n)], 0) == HexValue("", n);
    }
  }

  lemma {:induction false} HexValueBoth(a: string, b: string, before: nat)
    requires forall k | 0 <= k < |a| :: Digit(a[k]) >= 0
    ensures HexValue(a + b, before) == HexValue(b, HexValue(a, before))
    decreases |a|
  {
    if a == "" {
      assert a + b == b;
    } else {
      HexValueBoth(a[1..], b, 16 * before + Digit(a[0]));
      assert (a + b)[1..] == a[1..] + b;
    }
  }

  /** What was printed is read back. */
  lemma HexIsRead(n: Address)
    ensures StrToUl(Hex(n)) == n
  {
    HexIsDigits(n);
    var s := Hex(n);
    assert Digit(s[0]) >= 0 && (|s| > 1 ==> Digit(s[1]) >= 0);
  }
}
