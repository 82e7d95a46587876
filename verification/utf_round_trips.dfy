/** What the conversions do to text that consists of Unicode scalar values. */
module UtfRoundTrips {
  import opened Transcoding
  import opened Unicode
  import opened UtfBuffers

  /** With room for all, no character is the first that does not fit. */
  lemma AllFit<T>(write: Writer<T>, cs: seq<Utf32>, n: nat, room: nat)
    requires n <= |cs| && |Flat(write, cs)| <= room
    ensures n < |cs| ==> |Flat(write, cs[..n + 1])| <= room
  {
    if n < |cs| { FlatPrefix(write, cs, n); }
  }

  lemma {:induction false} SameUnits(cs: seq<Utf32>, strict: bool)
    requires AllScalars(cs)
    ensures Flat(Writer16(strict), cs) == Flat(To16, cs)
  {
    if cs != [] {
      var n := |cs| - 1;
      SameUnits(cs[..n], strict);
    }
  }

  /** UTF-32 to UTF-16 writes each character's code units. */
  lemma IntoUtf16(cs: seq<Utf32>, strict: bool, room: nat, r: Result, n: nat, units: seq<Utf16>)
    requires AllScalars(cs) && |Flat(To16, cs)| <= room
    requires ConvertedTo16(cs, strict, room, r, n, units)
    ensures r == ConversionOk && n == |cs| && units == Flat(To16, cs)
  {
    SameUnits(cs[..n], strict);
    if n < |cs| {
      assert IsScalar(cs[n]);
      AllFit(To16, cs, n, room);
      FlatPrefix(To16, cs, n);
    }
    assert cs[..n] == cs;
  }

  // ---- Into buffers with room for all

  method FromUtf32(cs: seq<Utf32>, room: nat, strict: bool) returns (r: Result, n: nat, bytes: seq<Utf8>)
    requires AllScalars(cs) && |Flat(To8, cs)| <= room
    ensures r == ConversionOk && n == |cs| && bytes == Flat(To8, cs)
  {
    var target := new Utf8[room];
    var written;
    ghost var xs, stopped;
    r, n, written, xs, stopped := ConvertUTF32toUTF8(cs, target, strict);
    bytes := target[..written];
    IntoUtf8(cs, strict, room, stopped, n, bytes, xs);
  }

  lemma IntoUtf8(cs: seq<Utf32>, strict: bool, room: nat, stopped: Result, n: nat, bytes: seq<Utf8>, xs: seq<Utf32>)
    requires AllScalars(cs) && |Flat(To8, cs)| <= room
    requires Converted(Reader32(strict), To8, cs, room, stopped, n, bytes, xs)
    ensures stopped == ConversionOk && n == |cs| && bytes == Flat(To8, cs) && !HasTooLarge(cs)
  {
    hide Converted, Encodes;
    Utf32Encodes(cs, strict);
    ConvertsAllThatFit(Reader32(strict), To32, To8, cs, cs, room, stopped, n, bytes, xs);
    AllFit(To8, cs, |xs|, room);
  }

  method FromUtf32ToUtf16(cs: seq<Utf32>, room: nat, strict: bool) returns (r: Result, n: nat, units: seq<Utf16>)
    requires AllScalars(cs) && |Flat(To16, cs)| <= room
    ensures r == ConversionOk && n == |cs| && units == Flat(To16, cs)
  {
    var target := new Utf16[room];
    var written;
    r, n, written := ConvertUTF32toUTF16(cs, target, strict);
    units := target[..written];
    IntoUtf16(cs, strict, room, r, n, units);
  }

  method FromUtf16(units: seq<Utf16>, room: nat, strict: bool, ghost cs: seq<Utf32>)
    returns (r: Result, n: nat, bytes: seq<Utf8>)
    requires AllScalars(cs) && units == Flat(To16, cs) && |Flat(To8, cs)| <= room
    ensures r == ConversionOk && n == |units| && bytes == Flat(To8, cs)
  {
    Utf16Encodes(cs, strict);
    var target := new Utf8[room];
    var written;
    ghost var xs;
    r, n, written, xs := ConvertUTF16toUTF8(units, target, strict);
    bytes := target[..written];
    ConvertsAllThatFit(Reader16(strict), To16, To8, units, cs, room, r, n, bytes, xs);
    AllFit(To8, cs, |xs|, room);
  }

  method FromUtf16ToUtf32(units: seq<Utf16>, room: nat, strict: bool, ghost cs: seq<Utf32>)
    returns (r: Result, n: nat, text: seq<Utf32>)
    requires AllScalars(cs) && units == Flat(To16, cs) && |cs| <= room
    ensures r == ConversionOk && n == |units| && text == cs
  {
    Utf16Encodes(cs, strict);
    FlatOfOnes(cs);
    var target := new Utf32[room];
    var written;
    ghost var xs;
    r, n, written, xs := ConvertUTF16toUTF32(units, target, strict);
    text := target[..written];
    ConvertsAllThatFit(Reader16(strict), To16, To32, units, cs, room, r, n, text, xs);
    AllFit(To32, cs, |xs|, room);
  }

  method FromUtf8(bytes: seq<Utf8>, room: nat, strict: bool, ghost cs: seq<Utf32>)
    returns (r: Result, n: nat, text: seq<Utf32>)
    requires AllScalars(cs) && bytes == Flat(To8, cs) && |cs| <= room
    ensures r == ConversionOk && n == |bytes| && text == cs
  {
    Utf8Encodes(cs);
    FlatOfOnes(cs);
    var target := new Utf32[room];
    var written;
    ghost var xs;
    r, n, written, xs := ConvertUTF8toUTF32(bytes, target, strict);
    text := target[..written];
    ConvertsAllThatFit(Read8, To8, To32, bytes, cs, room, r, n, text, xs);
    AllFit(To32, cs, |xs|, room);
  }

  method FromUtf8ToUtf16(bytes: seq<Utf8>, room: nat, strict: bool, ghost cs: seq<Utf32>)
    returns (r: Result, n: nat, units: seq<Utf16>)
    requires AllScalars(cs) && bytes == Flat(To8, cs) && |Flat(To16, cs)| <= room
    ensures r == ConversionOk && n == |bytes| && units == Flat(To16, cs)
  {
    Utf8Encodes(cs);
    var target := new Utf16[room];
    var written;
    ghost var xs;
    r, n, written, xs := ConvertUTF8toUTF16(bytes, target, strict);
    units := target[..written];
    ConvertsAllThatFit(Read8, To8, To16, bytes, cs, room, r, n, units, xs);
    AllFit(To16, cs, |xs|, room);
  }

  // ---- There and back, strictly or not at each step, for any scalar values

  /** UTF-32 to UTF-8 to UTF-32 gives the text back. */
  method ThroughUtf8(cs: seq<Utf32>, room1: nat, room2: nat, strict1: bool, strict2: bool)
    returns (r1: Result, r2: Result, text: seq<Utf32>)
    requires AllScalars(cs) && |Flat(To8, cs)| <= room1 && |cs| <= room2
    ensures r1 == r2 == ConversionOk && text == cs
  {
    var n1, bytes, n2;
    r1, n1, bytes := FromUtf32(cs, room1, strict1);
    r2, n2, text := FromUtf8(bytes, room2, strict2, cs);
  }

  /** UTF-32 to UTF-16 to UTF-8 gives the bytes of the direct way, and from there to UTF-32 gives the text back. */
  method ThroughUtf16AndUtf8(cs: seq<Utf32>, room1: nat, room2: nat, room3: nat, strict1: bool, strict2: bool, strict3: bool)
    returns (r1: Result, r2: Result, r3: Result, bytes: seq<Utf8>, direct: seq<Utf8>, text: seq<Utf32>)
    requires AllScalars(cs) && |Flat(To16, cs)| <= room1 && |Flat(To8, cs)| <= room2 && |cs| <= room3
    ensures r1 == r2 == r3 == ConversionOk && bytes == direct && text == cs
  {
    var n0, r0, n1, units, n2, n3;
    r1, n1, units := FromUtf32ToUtf16(cs, room1, strict1);
    r2, n2, bytes := FromUtf16(units, room2, strict2, cs);
    r0, n0, direct := FromUtf32(cs, room2, strict2);
    r3, n3, text := FromUtf8(bytes, room3, strict3, cs);
  }

  /** UTF-16 to UTF-8 to UTF-16 gives the units back, and so does UTF-16 to UTF-32 to UTF-16. */
  method Utf16AndBack(units: seq<Utf16>, room1: nat, room2: nat, room3: nat, strict1: bool, strict2: bool, ghost cs: seq<Utf32>)
    returns (r1: Result, r2: Result, r3: Result, r4: Result, byUtf8: seq<Utf16>, byUtf32: seq<Utf16>)
    requires AllScalars(cs) && units == Flat(To16, cs)
    requires |Flat(To8, cs)| <= room1 && |cs| <= room2 && |units| <= room3
    ensures r1 == r2 == r3 == r4 == ConversionOk && byUtf8 == byUtf32 == units
  {
    var n1, bytes, n2, n3, text, n4;
    r1, n1, bytes := FromUtf16(units, room1, strict1, cs);
    r2, n2, byUtf8 := FromUtf8ToUtf16(bytes, room3, strict2, cs);
    r3, n3, text := FromUtf16ToUtf32(units, room2, strict1, cs);
    r4, n4, byUtf32 := FromUtf32ToUtf16(text, room3, strict2);
  }

  // ---- Illegal values: is the position reported that of the first one?

  /** What may not be converted: values above the range, and when strict surrogates. */
  predicate IsIllegal(c: Utf32, strict: bool) {
    c > MAX_LEGAL || (strict && IsSurrogate(c))
  }

  ghost predicate IsFirstIllegal(source: seq<Utf32>, strict: bool, n: nat) {
    n < |source| && IsIllegal(source[n], strict) && forall i | 0 <= i < n :: !IsIllegal(source[i], strict)
  }

  /** There is a surrogate, and no value above the range comes before the first. */
  ghost predicate HasSurrogateFirst(source: seq<Utf32>) {
    exists i :: 0 <= i < |source| && IsSurrogate(source[i]) && forall j | 0 <= j < i :: source[j] <= MAX_LEGAL
  }

  /** What has been read of a UTF-32 source is the source up to there, without surrogates when strict. */
  lemma {:induction false} ReadIsPrefix(source: seq<Utf32>, strict: bool, cs: seq<Utf32>, n: nat)
    requires ReadsTo(Reader32(strict), source, cs, n) && n <= |source|
    ensures cs == source[..n] && (strict ==> forall i | 0 <= i < n :: !IsSurrogate(source[i]))
    decreases |cs|
  {
    if cs != [] {
      var from := ReadsLast(Reader32(strict), source, cs, n);
      ReadIsPrefix(source, strict, cs[..|cs| - 1], from);
      assert cs == cs[..|cs| - 1] + [cs[|cs| - 1]] && source[..n] == source[..from] + [source[from]];
    }
  }

  /** A stop at a surrogate, or at the end, with no surrogate before. */
  lemma StopsRight(source: seq<Utf32>, n: nat)
    requires n <= |source| && forall i | 0 <= i < n :: !IsSurrogate(source[i])
    requires n < |source| ==> IsSurrogate(source[n])
    ensures IsFirstIllegal(source, true, n) <==> HasSurrogateFirst(source)
  {
    if HasSurrogateFirst(source) {
      var i :| 0 <= i < |source| && IsSurrogate(source[i]) && forall j | 0 <= j < i :: source[j] <= MAX_LEGAL;
      assert n <= i;
    }
    if IsFirstIllegal(source, true, n) {
      assert forall j | 0 <= j < n :: !IsIllegal(source[j], true);
    }
  }

  /** UTF-32 to UTF-16: when an illegal source is reported, the position is that of the first illegal value exactly if no
      value above the range comes before the first surrogate. */
  lemma IllegalIsLocated16(source: seq<Utf32>, strict: bool, room: nat, n: nat, out: seq<Utf16>)
    requires ConvertedTo16(source, strict, room, SourceIllegal, n, out)
    ensures IsFirstIllegal(source, strict, n) <==> HasSurrogateFirst(source)
  {
    StopsRight(source, n);
  }

  /** UTF-32 to UTF-8: the same when strict; when not, the position is never right. */
  lemma IllegalIsLocated8(source: seq<Utf32>, strict: bool, room: nat, r: Result, n: nat, out: seq<Utf8>, cs: seq<Utf32>)
    requires Converted(Reader32(strict), To8, source, room, r, n, out, cs)
    requires r == SourceIllegal || (n == |source| && HasTooLarge(source))
    ensures IsFirstIllegal(source, strict, n) <==> strict && HasSurrogateFirst(source)
  {
    ReadIsPrefix(source, strict, cs, n);
    if strict { StopsRight(source, n); }
  }

  /** Nothing illegal is ever passed over but values above the range. */
  lemma OnlyTooLargeIsPassed(source: seq<Utf32>, strict: bool, room: nat, r: Result, n: nat, i: nat,
                             units: seq<Utf16>, bytes: seq<Utf8>, cs: seq<Utf32>)
    requires ConvertedTo16(source, strict, room, r, n, units) || Converted(Reader32(strict), To8, source, room, r, n, bytes, cs)
    requires i < n && IsIllegal(source[i], strict)
    ensures source[i] > MAX_LEGAL
  {
    if Converted(Reader32(strict), To8, source, room, r, n, bytes, cs) { ReadIsPrefix(source, strict, cs, n); }
  }

  /** The first value is illegal, and the position reported is that of the second. */
  method TooLargeThenSurrogate() returns (result: Result, consumed: nat)
    ensures result == SourceIllegal && consumed == 1
  {
    var source := [0x110000, 0xD800];
    var target := new Utf16[2];
    var written;
    result, consumed, written := ConvertUTF32toUTF16(source, target, true);
    assert source[..0] == [] && source[..1] == [source[0]];
    assert Flat(Writer16(true), source[..1]) == Flat(Writer16(true), []) + Writer16(true)(source[0]);
    assert IsSurrogate(source[1]);
  }

  /** The only value is illegal, and the position reported is that behind it. */
  method TooLargeAlone(strict: bool) returns (result: Result, consumed: nat)
    ensures result == SourceIllegal && consumed == 1
  {
    var source := [0x110000];
    var target := new Utf8[3];
    var written;
    ghost var cs, r;
    result, consumed, written, cs, r := ConvertUTF32toUTF8(source, target, strict);
    ReadIsPrefix(source, strict, cs, consumed);
    assert consumed == 0 ==> target[..written] == [] && |To8(source[0])| == 3;
    assert source[0] > MAX_LEGAL;
  }

  // ---- Values above the range: is there always an error?

  /** UTF-32 to UTF-16: of a source with a value above the range an error is returned exactly if the conversion is strict, or
      the target has no room for all with such values replaced. */
  lemma ErrorIsReturned16(source: seq<Utf32>, strict: bool, room: nat, r: Result, n: nat, out: seq<Utf16>)
    requires ConvertedTo16(source, strict, room, r, n, out) && HasTooLarge(source)
    ensures r != ConversionOk <==> strict || |Flat(Writer16(false), source)| > room
  {
    assert source[..|source|] == source;
    if !strict && n < |source| {
      FlatPrefix(Writer16(false), source, n);
      assert |Writer16(false)(source[n])| > 0;
    }
  }

  /** UTF-32 to UTF-8: always. */
  lemma ErrorIsReturned8(source: seq<Utf32>, strict: bool, room: nat, result: Result, r: Result, n: nat, out: seq<Utf8>,
                         cs: seq<Utf32>)
    requires Converted(Reader32(strict), To8, source, room, r, n, out, cs) && HasTooLarge(source)
    requires result == if n == |source| && HasTooLarge(source) then SourceIllegal else r
    ensures result != ConversionOk
  {
  }

  /** A lenient conversion of one value above the range is said to have gone well. */
  method TooLargeIsConverted() returns (result: Result, consumed: nat, units: seq<Utf16>)
    ensures result == ConversionOk && consumed == 1 && units == [REPLACEMENT]
  {
    var source := [0x110000];
    var target := new Utf16[1];
    var written;
    result, consumed, written := ConvertUTF32toUTF16(source, target, false);
    units := target[..written];
    assert source[..0] == [] && source[..1] == source && source[0] > MAX_LEGAL;
    assert Flat(Writer16(false), source) == Flat(Writer16(false), []) + Writer16(false)(source[0]);
  }
}
