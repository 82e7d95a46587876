/** The conversions of convert_UTF.c over whole buffers. The pointers that they move are positions here. */
module UtfBuffers {
  import opened ConvertUtf
  import opened Transcoding
  import opened Unicode

  // ---- What is written for a character

  function To8(c: Utf32): (bs: seq<Utf8>)
    ensures 1 <= |bs| <= 4
  {
    Octets(if c <= MAX_LEGAL then c else REPLACEMENT)
  }

  function To16(c: Utf32): seq<Utf16> {
    CodeUnits(if c <= MAX_LEGAL then c else REPLACEMENT)
  }

  function To32(c: Utf32): seq<Utf32> {
    [c]
  }

  // ---- What is read

  function Read8(source: seq<Utf8>, at: nat): Found {
    if at >= |source| || at + TrailingBytes(source[at]) >= |source| then Stop(SourceExhausted)
    else
      var bs := source[at..at + TrailingBytes(source[at]) + 1];
      if IsLegal(bs) then
        LegalDecodesToScalar(bs);
        Char(Decoded(bs), |bs|)
      else Stop(SourceIllegal)
  }

  /** The character at `at`, from a surrogate pair if there is one; an unpaired surrogate only if not strict. */
  function Read16(source: seq<Utf16>, at: nat, strict: bool): (found: Found)
    ensures found.Char? ==> found.c <= MAX_LEGAL && 0 < found.size <= |source| - at
  {
    if at >= |source| then Stop(SourceExhausted)
    else if IsHigh(source[at]) then
      if at + 1 >= |source| then Stop(SourceExhausted)
      else if IsLow(source[at + 1]) then Char(Paired(source[at], source[at + 1]), 2)
      else if strict then Stop(SourceIllegal)
      else Char(source[at], 1)
    else if strict && IsLow(source[at]) then Stop(SourceIllegal)
    else Char(source[at], 1)
  }

  function Read32(source: seq<Utf32>, at: nat, strict: bool): Found {
    if at >= |source| then Stop(SourceExhausted)
    else if strict && IsSurrogate(source[at]) then Stop(SourceIllegal)
    else Char(source[at], 1)
  }

  function Reader16(strict: bool): Reader<Utf16> {
    (source: seq<Utf16>, at: nat) => Read16(source, at, strict)
  }

  function Reader32(strict: bool): Reader<Utf32> {
    (source: seq<Utf32>, at: nat) => Read32(source, at, strict)
  }

  // ---- What was encoded is read back

  lemma {:induction false} FlatAt<T>(write: Writer<T>, cs: seq<Utf32>, k: nat)
    requires k < |cs|
    ensures var at := |Flat(write, cs[..k])|;
            at + |write(cs[k])| <= |Flat(write, cs)| && Flat(write, cs)[at..at + |write(cs[k])|] == write(cs[k])
    decreases |cs|
  {
    var n := |cs| - 1;
    if k < n {
      FlatAt(write, cs[..n], k);
      assert cs[..n][..k] == cs[..k];
      var at, m := |Flat(write, cs[..k])|, |write(cs[k])|;
      assert Flat(write, cs) == Flat(write, cs[..n]) + write(cs[n]);
      assert Flat(write, cs)[at..at + m] == Flat(write, cs[..n])[at..at + m];
    }
  }

  lemma OctetsAreRead(source: seq<Utf8>, at: nat, c: Utf32)
    requires IsScalar(c) && at + |To8(c)| <= |source| && source[at..at + |To8(c)|] == To8(c)
    ensures Read8(source, at) == Char(c, |To8(c)|)
  {
    DecodesOctets(c);
    assert source[at] == To8(c)[0];
  }

  lemma OctetsAt(cs: seq<Utf32>, k: nat)
    requires AllScalars(cs) && k < |cs|
    ensures Read8(Flat(To8, cs), |Flat(To8, cs[..k])|) == Char(cs[k], |To8(cs[k])|)
  {
    FlatAt(To8, cs, k);
    OctetsAreRead(Flat(To8, cs), |Flat(To8, cs[..k])|, cs[k]);
  }

  /** The UTF-8 encoding of scalar values is read back. */
  lemma Utf8Encodes(cs: seq<Utf32>)
    requires AllScalars(cs)
    ensures Encodes(Read8, To8, Flat(To8, cs), cs)
  {
    forall k | 0 <= k < |cs| ensures Read8(Flat(To8, cs), |Flat(To8, cs[..k])|) == Char(cs[k], |To8(cs[k])|) {
      OctetsAt(cs, k);
    }
  }

  lemma UnitsAreRead(source: seq<Utf16>, at: nat, c: Utf32, strict: bool)
    requires IsScalar(c) && at + |To16(c)| <= |source| && source[at..at + |To16(c)|] == To16(c)
    ensures Read16(source, at, strict) == Char(c, |To16(c)|)
  {
    assert source[at] == To16(c)[0];
    if c > MAX_BMP {
      UnitsArePaired(c);
      assert source[at + 1] == To16(c)[1];
    }
  }

  lemma UnitsAt(cs: seq<Utf32>, k: nat, strict: bool)
    requires AllScalars(cs) && k < |cs|
    ensures Reader16(strict)(Flat(To16, cs), |Flat(To16, cs[..k])|) == Char(cs[k], |To16(cs[k])|)
  {
    FlatAt(To16, cs, k);
    UnitsAreRead(Flat(To16, cs), |Flat(To16, cs[..k])|, cs[k], strict);
  }

  /** The UTF-16 encoding of scalar values is read back, strictly or not. */
  lemma Utf16Encodes(cs: seq<Utf32>, strict: bool)
    requires AllScalars(cs)
    ensures Encodes(Reader16(strict), To16, Flat(To16, cs), cs)
  {
    forall k | 0 <= k < |cs|
      ensures Reader16(strict)(Flat(To16, cs), |Flat(To16, cs[..k])|) == Char(cs[k], |To16(cs[k])|)
    {
      UnitsAt(cs, k, strict);
    }
  }

  lemma {:induction false} FlatOfOnes(cs: seq<Utf32>)
    ensures Flat(To32, cs) == cs
  {
    if cs != [] { FlatOfOnes(cs[..|cs| - 1]); }
  }

  lemma Utf32At(cs: seq<Utf32>, k: nat, strict: bool)
    requires AllScalars(cs) && k < |cs|
    ensures Reader32(strict)(cs, |Flat(To32, cs[..k])|) == Char(cs[k], |To32(cs[k])|)
  {
    FlatOfOnes(cs[..k]);
  }

  lemma Utf32Encodes(cs: seq<Utf32>, strict: bool)
    requires AllScalars(cs)
    ensures Encodes(Reader32(strict), To32, cs, cs)
  {
    FlatOfOnes(cs);
    forall k | 0 <= k < |cs| ensures Reader32(strict)(cs, |Flat(To32, cs[..k])|) == Char(cs[k], |To32(cs[k])|) {
      Utf32At(cs, k, strict);
    }
  }

  // ---- The pieces

  /** The fall-through sum, as the loop it stands for. */
  method Sum(source: seq<Utf8>, at: nat, extra: nat) returns (ch: Utf32)
    requires at + extra < |source| && IsLegal(source[at..at + extra + 1]) && extra == TrailingBytes(source[at])
    ensures ch == Decoded(source[at..at + extra + 1]) && IsScalar(ch)
  {
    ghost var bs := source[at..at + extra + 1];
    LegalDecodesToScalar(bs);
    ch := source[at];
    for i := 1 to extra + 1
      invariant ch == SumOf(bs, i)
    {
      assert SumOf(bs, i + 1) == 64 * SumOf(bs, i) + source[at + i];
      ch := WithSixBits(ch) + source[at + i];
    }
    ch := ch - Offset(extra);
  }

  /** The bytes of a character, the last one first. */
  method Put8(target: array<Utf8>, at: nat, c: Utf32, bytesToWrite: nat) returns (end: nat)
    requires c <= MAX_LEGAL && bytesToWrite == |Octets(c)| && at + bytesToWrite <= target.Length
    modifies target
    ensures end == at + bytesToWrite
    ensures target[..end] == old(target[..at]) + Octets(c) && target[end..] == old(target[end..])
  {
    OctetsFromTheEnd(c);
    end := PutFromTheEnd(target, at, c, bytesToWrite, Octets(c));
  }

  method PutFromTheEnd(target: array<Utf8>, at: nat, c: Utf32, bytesToWrite: nat, ghost bs: seq<Utf8>) returns (end: nat)
    requires TakenFromTheEnd(bs, c) && bytesToWrite == |bs| && at + bytesToWrite <= target.Length
    modifies target
    ensures end == at + bytesToWrite
    ensures target[..end] == old(target[..at]) + bs && target[end..] == old(target[end..])
  {
    end := at + bytesToWrite;
    var t, ch := end, c;
    if bytesToWrite >= 4 { t, ch := PutTrailing(target, t, ch); }
    if bytesToWrite >= 3 { t, ch := PutTrailing(target, t, ch); }
    if bytesToWrite >= 2 { t, ch := PutTrailing(target, t, ch); }
    t := t - 1;
    target[t] := Leading(ch, bytesToWrite);
    assert target[at..end] == bs;
    assert target[..end] == target[..at] + target[at..end];
  }

  method PutTrailing(target: array<Utf8>, t: nat, ch: Utf32) returns (t': nat, ch': Utf32)
    requires 0 < t <= target.Length
    modifies target
    ensures t' == t - 1 && ch' == ch / 64 && target[..] == old(target[..])[t' := 0x80 + ch % 64]
  {
    t' := t - 1;
    target[t'] := Trailing(ch);
    ch' := AfterSixBits(ch);
  }

  // ---- The conversions

  /** The part of both loops that reads a character. */
  method Next8(source: seq<Utf8>, at: nat) returns (found: Found)
    requires at < |source|
    ensures found == Read8(source, at)
    ensures found.Char? ==> IsScalar(found.c) && 0 < found.size <= |source| - at
  {
    var extra := TrailingBytes(source[at]);
    if at + extra >= |source| { return Stop(SourceExhausted); }
    if !IsLegal(source[at..at + extra + 1]) { return Stop(SourceIllegal); }
    var ch := Sum(source, at, extra);
    return Char(ch, extra + 1);
  }

  method ConvertUTF8toUTF32(source: seq<Utf8>, target: array<Utf32>, strict: bool)
    returns (result: Result, consumed: nat, written: nat, ghost cs: seq<Utf32>)
    modifies target
    ensures written <= target.Length && target[written..] == old(target[written..])
    ensures Converted(Read8, To32, source, target.Length, result, consumed, target[..written], cs)
    ensures AllScalars(cs)
  {
    consumed, written, cs := 0, 0, [];
    while consumed < |source|
      invariant written <= target.Length && target[written..] == old(target[written..])
      invariant Progress(Read8, To32, source, consumed, target[..written], cs) && AllScalars(cs)
    {
      var found := Next8(source, consumed);
      assert Read8(source, consumed) == found;
      if found.Stop? { return found.why, consumed, written, cs; }
      var ch := found.c;
      if written >= target.Length { return TargetExhausted, consumed, written, cs; }
      // `ch` is a scalar value: the branches for surrogates and for larger values, strict or not, are never taken.
      ghost var out := target[..written];
      OneMore(Read8, To32, source, consumed, out, cs, ch, found.size);
      target[written] := ch;
      written := written + 1;
      assert target[..written] == out + To32(ch);
      cs := cs + [ch];
      consumed := consumed + found.size;
    }
    return ConversionOk, consumed, written, cs;
  }

  method ConvertUTF8toUTF16(source: seq<Utf8>, target: array<Utf16>, strict: bool)
    returns (result: Result, consumed: nat, written: nat, ghost cs: seq<Utf32>)
    modifies target
    ensures written <= target.Length && target[written..] == old(target[written..])
    ensures Converted(Read8, To16, source, target.Length, result, consumed, target[..written], cs)
    ensures AllScalars(cs)
  {
    consumed, written, cs := 0, 0, [];
    while consumed < |source|
      invariant written <= target.Length && target[written..] == old(target[written..])
      invariant Progress(Read8, To16, source, consumed, target[..written], cs) && AllScalars(cs)
    {
      var found := Next8(source, consumed);
      assert Read8(source, consumed) == found;
      if found.Stop? { return found.why, consumed, written, cs; }
      var ch := found.c;
      if written >= target.Length { return TargetExhausted, consumed, written, cs; }
      // Here too the branches for surrogates and for values above MAX_LEGAL are never taken.
      if ch > MAX_BMP && written + 1 >= target.Length { return TargetExhausted, consumed, written, cs; }
      ghost var out := target[..written];
      OneMore(Read8, To16, source, consumed, out, cs, ch, found.size);
      assert To16(ch) == CodeUnits(ch);
      written := Put16(target, written, ch);
      assert target[..written] == out + To16(ch);
      cs := cs + [ch];
      consumed := consumed + found.size;
    }
    return ConversionOk, consumed, written, cs;
  }

  /** One code unit, or a surrogate pair. */
  method Put16(target: array<Utf16>, at: nat, ch: Utf32) returns (end: nat)
    requires ch <= MAX_LEGAL && at + |CodeUnits(ch)| <= target.Length
    modifies target
    ensures end == at + |CodeUnits(ch)|
    ensures target[..end] == old(target[..at]) + CodeUnits(ch) && target[end..] == old(target[end..])
  {
    end := at;
    if ch <= MAX_BMP {
      target[end] := ch;
      end := end + 1;
    } else {
      target[end] := HighHalf(ch - 0x10000);
      end := end + 1;
      target[end] := LowHalf(ch - 0x10000);
      end := end + 1;
    }
  }

  function BytesToWrite(ch: Utf32): (n: nat)
    requires ch <= MAX_LEGAL
    ensures n == |Octets(ch)|
  {
    if ch < 0x80 then 1 else if ch < 0x800 then 2 else if ch < 0x10000 then 3 else 4
  }

  method ConvertUTF16toUTF8(source: seq<Utf16>, target: array<Utf8>, strict: bool)
    returns (result: Result, consumed: nat, written: nat, ghost cs: seq<Utf32>)
    modifies target
    ensures written <= target.Length && target[written..] == old(target[written..])
    ensures Converted(Reader16(strict), To8, source, target.Length, result, consumed, target[..written], cs)
  {
    consumed, written, cs := 0, 0, [];
    while consumed < |source|
      invariant written <= target.Length && target[written..] == old(target[written..])
      invariant Progress(Reader16(strict), To8, source, consumed, target[..written], cs)
    {
      var found := Read16(source, consumed, strict);
      if found.Stop? { return found.why, consumed, written, cs; }
      assert Reader16(strict)(source, consumed) == found;
      var ch := found.c;
      // `ch` is below 0x110000: it is never replaced.
      var bytesToWrite := BytesToWrite(ch);
      if written + bytesToWrite > target.Length { return TargetExhausted, consumed, written, cs; }
      ghost var out := target[..written];
      OneMore(Reader16(strict), To8, source, consumed, out, cs, ch, found.size);
      written := Put8(target, written, ch, bytesToWrite);
      assert target[..written] == out + To8(ch);
      cs := cs + [ch];
      consumed := consumed + found.size;
    }
    return ConversionOk, consumed, written, cs;
  }

  method ConvertUTF16toUTF32(source: seq<Utf16>, target: array<Utf32>, strict: bool)
    returns (result: Result, consumed: nat, written: nat, ghost cs: seq<Utf32>)
    modifies target
    ensures written <= target.Length && target[written..] == old(target[written..])
    ensures Converted(Reader16(strict), To32, source, target.Length, result, consumed, target[..written], cs)
  {
    consumed, written, cs := 0, 0, [];
    while consumed < |source|
      invariant written <= target.Length && target[written..] == old(target[written..])
      invariant Progress(Reader16(strict), To32, source, consumed, target[..written], cs)
    {
      var found := Read16(source, consumed, strict);
      if found.Stop? { return found.why, consumed, written, cs; }
      assert Reader16(strict)(source, consumed) == found;
      var ch := found.c;
      if written >= target.Length { return TargetExhausted, consumed, written, cs; }
      ghost var out := target[..written];
      OneMore(Reader16(strict), To32, source, consumed, out, cs, ch, found.size);
      target[written] := ch;
      written := written + 1;
      assert target[..written] == out + To32(ch);
      cs := cs + [ch];
      consumed := consumed + found.size;
    }
    return ConversionOk, consumed, written, cs;
  }

  /** Some value, among those that can be converted at all, is above the legal range. */
  ghost predicate HasTooLarge(source: seq<Utf32>) {
    exists i :: 0 <= i < |source| && source[i] > MAX_LEGAL
  }

  /** How far a conversion has come that has replaced values above the legal range. */
  ghost predicate Gone8(source: seq<Utf32>, strict: bool, consumed: nat, out: seq<Utf8>, cs: seq<Utf32>, result: Result) {
    && Progress(Reader32(strict), To8, source, consumed, out, cs)
    && result == if HasTooLarge(source[..consumed]) then SourceIllegal else ConversionOk
  }

  lemma GoneOn8(source: seq<Utf32>, strict: bool, consumed: nat, out: seq<Utf8>, cs: seq<Utf32>, result: Result)
    requires Gone8(source, strict, consumed, out, cs, result) && consumed < |source|
    requires !(strict && IsSurrogate(source[consumed]))
    ensures var ch := source[consumed];
            Gone8(source, strict, consumed + 1, out + To8(ch), cs + [ch], if ch > MAX_LEGAL then SourceIllegal else result)
  {
    OneMore(Reader32(strict), To8, source, consumed, out, cs, source[consumed], 1);
    TooLargeSoFar(source, consumed);
  }

  /** Values above the legal range are replaced, and reported only if nothing else stops the conversion. */
  method ConvertUTF32toUTF8(source: seq<Utf32>, target: array<Utf8>, strict: bool)
    returns (result: Result, consumed: nat, written: nat, ghost cs: seq<Utf32>, ghost r: Result)
    modifies target
    ensures written <= target.Length && target[written..] == old(target[written..])
    ensures Converted(Reader32(strict), To8, source, target.Length, r, consumed, target[..written], cs)
    ensures result == if consumed == |source| && HasTooLarge(source) then SourceIllegal else r
  {
    result, consumed, written, cs := ConversionOk, 0, 0, [];
    while consumed < |source|
      invariant written <= target.Length && target[written..] == old(target[written..])
      invariant Gone8(source, strict, consumed, target[..written], cs, result)
    {
      var ch := source[consumed];
      if strict && IsSurrogate(ch) { return SourceIllegal, consumed, written, cs, SourceIllegal; }
      var out: Utf32 := if ch <= MAX_LEGAL then ch else REPLACEMENT;
      var bytesToWrite := BytesToWrite(out);
      if written + bytesToWrite > target.Length { return TargetExhausted, consumed, written, cs, TargetExhausted; }
      GoneOn8(source, strict, consumed, target[..written], cs, result);
      if ch > MAX_LEGAL { result := SourceIllegal; }
      written := Put8(target, written, out, bytesToWrite);
      cs := cs + [ch];
      consumed := consumed + 1;
    }
    assert source[..consumed] == source;
    return result, consumed, written, cs, ConversionOk;
  }

  lemma TooLargeSoFar(source: seq<Utf32>, n: nat)
    requires n < |source|
    ensures HasTooLarge(source[..n + 1]) <==> HasTooLarge(source[..n]) || source[n] > MAX_LEGAL
  {
    if HasTooLarge(source[..n]) {
      var i :| 0 <= i < n && source[..n][i] > MAX_LEGAL;
      assert source[..n + 1][i] > MAX_LEGAL;
    }
    assert source[..n + 1][n] == source[n];
  }

  // ---- UTF-32 to UTF-16: here a full target comes before everything else

  function To16From32(c: Utf32, strict: bool): seq<Utf16> {
    if c > MAX_LEGAL then if strict then [] else [REPLACEMENT]
    else if IsSurrogate(c) then [REPLACEMENT]
    else CodeUnits(c)
  }

  function Writer16(strict: bool): Writer<Utf16> {
    (c: Utf32) => To16From32(c, strict)
  }

  /** Too large a value is skipped over when strict, and the conversion goes on. */
  ghost predicate ConvertedTo16(source: seq<Utf32>, strict: bool, room: nat, result: Result, consumed: nat, out: seq<Utf16>) {
    && consumed <= |source| && out == Flat(Writer16(strict), source[..consumed]) && |out| <= room
    && (strict ==> forall i | 0 <= i < consumed :: !IsSurrogate(source[i]))
    && if consumed == |source| then result == if strict && HasTooLarge(source) then SourceIllegal else ConversionOk
       else if |out| == room then result == TargetExhausted
       else if IsSurrogate(source[consumed]) then strict && result == SourceIllegal
       else MAX_BMP < source[consumed] <= MAX_LEGAL && |out| + 1 == room && result == TargetExhausted
  }

  /** How far a conversion has come. */
  ghost predicate Gone16(source: seq<Utf32>, strict: bool, consumed: nat, out: seq<Utf16>, result: Result) {
    && consumed <= |source| && out == Flat(Writer16(strict), source[..consumed])
    && (strict ==> forall i | 0 <= i < consumed :: !IsSurrogate(source[i]))
    && result == if strict && HasTooLarge(source[..consumed]) then SourceIllegal else ConversionOk
  }

  lemma GoneOneMore(source: seq<Utf32>, strict: bool, consumed: nat, out: seq<Utf16>, result: Result)
    requires Gone16(source, strict, consumed, out, result) && consumed < |source|
    requires !(strict && IsSurrogate(source[consumed]))
    ensures var ch := source[consumed];
            Gone16(source, strict, consumed + 1, out + To16From32(ch, strict),
                   if strict && ch > MAX_LEGAL then SourceIllegal else result)
  {
    TooLargeSoFar(source, consumed);
    FlatPrefix(Writer16(strict), source, consumed);
  }

  method ConvertUTF32toUTF16(source: seq<Utf32>, target: array<Utf16>, strict: bool)
    returns (result: Result, consumed: nat, written: nat)
    modifies target
    ensures written <= target.Length && target[written..] == old(target[written..])
    ensures ConvertedTo16(source, strict, target.Length, result, consumed, target[..written])
  {
    result, consumed, written := ConversionOk, 0, 0;
    while consumed < |source|
      invariant written <= target.Length && target[written..] == old(target[written..])
      invariant Gone16(source, strict, consumed, target[..written], result)
    {
      if written >= target.Length { return TargetExhausted, consumed, written; }
      var ch := source[consumed];
      if ch <= MAX_BMP && IsSurrogate(ch) && strict { return SourceIllegal, consumed, written; }
      if MAX_BMP < ch <= MAX_LEGAL && written + 1 >= target.Length { return TargetExhausted, consumed, written; }
      GoneOneMore(source, strict, consumed, target[..written], result);
      written := PutValue(target, written, ch, strict);
      if ch > MAX_LEGAL && strict { result := SourceIllegal; }
      consumed := consumed + 1;
    }
    assert source[..consumed] == source;
  }

  /** What a value that does not stop the conversion puts into the target. */
  method PutValue(target: array<Utf16>, at: nat, ch: Utf32, strict: bool) returns (end: nat)
    requires at + |To16From32(ch, strict)| <= target.Length && at < target.Length
    modifies target
    ensures end == at + |To16From32(ch, strict)|
    ensures target[..end] == old(target[..at]) + To16From32(ch, strict) && target[end..] == old(target[end..])
  {
    end := at;
    if ch <= MAX_BMP {
      target[end] := if IsSurrogate(ch) then REPLACEMENT else ch;
      end := end + 1;
    } else if ch > MAX_LEGAL {
      if !strict {
        target[end] := REPLACEMENT;
        end := end + 1;
      }
    } else {
      end := Put16(target, end, ch);
    }
  }
}
