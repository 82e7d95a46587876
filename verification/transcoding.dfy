/** What it means to convert a buffer from one encoding to another, character by character, as far as the source
    can be read and the target has room. */
module Transcoding {
  import opened Unicode

  datatype Result = ConversionOk | SourceExhausted | TargetExhausted | SourceIllegal

  /** What is found at a position of a source: a character and how many units it takes, or why there is none. */
  datatype Found = Char(c: Utf32, size: nat) | Stop(why: Result)

  type Reader<!S> = (seq<S>, nat) -> Found
  type Writer<!T> = Utf32 -> seq<T>

  /** The units of some characters, one after the other. */
  function Flat<T>(write: Writer<T>, cs: seq<Utf32>): seq<T> {
    if cs == [] then [] else Flat(write, cs[..|cs| - 1]) + write(cs[|cs| - 1])
  }

  /** Reading from position 0 finds the characters `cs`, which end at position `to`. */
  ghost predicate ReadsTo<S>(read: Reader<S>, source: seq<S>, cs: seq<Utf32>, to: nat) {
    if cs == [] then to == 0
    else
      exists from: nat :: ReadsTo(read, source, cs[..|cs| - 1], from)
        && from < to <= |source| && read(source, from) == Char(cs[|cs| - 1], to - from)
  }

  /** So far `cs` were read and their units written. */
  ghost predicate Progress<S, T>(read: Reader<S>, write: Writer<T>, source: seq<S>, consumed: nat, out: seq<T>,
                                 cs: seq<Utf32>)
  {
    ReadsTo(read, source, cs, consumed) && consumed <= |source| && out == Flat(write, cs)
  }

  /** The outcome of a conversion: `cs` were read and their units written, up to position `consumed` of the source;
      there the source ends, or no character can be read, or the target has no room for it. */
  ghost predicate Converted<S, T>(read: Reader<S>, write: Writer<T>, source: seq<S>, room: nat,
                                  result: Result, consumed: nat, out: seq<T>, cs: seq<Utf32>)
  {
    && Progress(read, write, source, consumed, out, cs) && |out| <= room
    && if consumed == |source| then result == ConversionOk
       else match read(source, consumed)
            case Stop(why) => result == why
            case Char(c, _) => result == TargetExhausted && |out| + |write(c)| > room
  }

  /** `source` is `cs` as written by `encode`, and `read` finds each of them. */
  ghost predicate Encodes<S>(read: Reader<S>, encode: Writer<S>, source: seq<S>, cs: seq<Utf32>) {
    && source == Flat(encode, cs)
    && forall k | 0 <= k < |cs| ::
         && |encode(cs[k])| > 0
         && read(source, |Flat(encode, cs[..k])|) == Char(cs[k], |encode(cs[k])|)
  }

  lemma {:induction false} FlatPrefix<T>(write: Writer<T>, cs: seq<Utf32>, k: nat)
    requires k < |cs|
    ensures Flat(write, cs[..k + 1]) == Flat(write, cs[..k]) + write(cs[k])
    ensures |Flat(write, cs[..k + 1])| <= |Flat(write, cs)|
    decreases |cs|
  {
    assert cs[..k + 1][..k] == cs[..k];
    var n := |cs| - 1;
    if k < n {
      FlatPrefix(write, cs[..n], k);
      assert cs[..n][..k + 1] == cs[..k + 1];
    } else {
      assert cs[..k + 1] == cs;
    }
  }

  lemma ReadsLast<S>(read: Reader<S>, source: seq<S>, cs: seq<Utf32>, to: nat) returns (from: nat)
    requires ReadsTo(read, source, cs, to) && cs != []
    ensures ReadsTo(read, source, cs[..|cs| - 1], from)
    ensures from < to <= |source| && read(source, from) == Char(cs[|cs| - 1], to - from)
  {
    from :| ReadsTo(read, source, cs[..|cs| - 1], from)
            && from < to <= |source| && read(source, from) == Char(cs[|cs| - 1], to - from);
  }

  lemma PrefixIsProper<S>(encode: Writer<S>, cs: seq<Utf32>, n: nat)
    requires n <= |cs| && |Flat(encode, cs[..n])| < |Flat(encode, cs)|
    ensures n < |cs|
  {
    assert cs[..|cs|] == cs;
  }

  lemma OneMore<S, T>(read: Reader<S>, write: Writer<T>, source: seq<S>, consumed: nat, out: seq<T>, cs: seq<Utf32>,
                      c: Utf32, size: nat)
    requires Progress(read, write, source, consumed, out, cs)
    requires read(source, consumed) == Char(c, size) && 0 < size && consumed + size <= |source|
    ensures Progress(read, write, source, consumed + size, out + write(c), cs + [c])
  {
    assert (cs + [c])[..|cs|] == cs;
  }

  /** What is read from an encoding of `cs` is a prefix of `cs`. */
  lemma {:induction false} ReadsPrefix<S>(read: Reader<S>, encode: Writer<S>, source: seq<S>, cs: seq<Utf32>,
                                          xs: seq<Utf32>, to: nat)
    requires Encodes(read, encode, source, cs) && ReadsTo(read, source, xs, to)
    ensures |xs| <= |cs| && xs == cs[..|xs|] && to == |Flat(encode, xs)|
    decreases |xs|
  {
    if xs != [] {
      var n := |xs| - 1;
      var from := ReadsLast(read, source, xs, to);
      ReadsPrefix(read, encode, source, cs, xs[..n], from);
      ReadsNext(read, encode, source, cs, xs, from, to);
    }
  }

  lemma ReadsNext<S>(read: Reader<S>, encode: Writer<S>, source: seq<S>, cs: seq<Utf32>, xs: seq<Utf32>, from: nat, to: nat)
    requires Encodes(read, encode, source, cs) && xs != [] && |xs| <= |cs| + 1 && xs[..|xs| - 1] == cs[..|xs| - 1]
    requires from == |Flat(encode, xs[..|xs| - 1])| && from < to <= |source|
    requires read(source, from) == Char(xs[|xs| - 1], to - from)
    ensures |xs| <= |cs| && xs == cs[..|xs|] && to == |Flat(encode, xs)|
  {
    var n := |xs| - 1;
    PrefixIsProper(encode, cs, n);
    FlatPrefix(encode, cs, n);
    assert xs == xs[..n] + [xs[n]] && cs[..n + 1] == cs[..n] + [cs[n]];
  }

  /** Converting an encoding of `cs` converts as many of them as there is room for, and all of them if there is room
      for all. */
  lemma ConvertsAllThatFit<S, T>(read: Reader<S>, encode: Writer<S>, write: Writer<T>, source: seq<S>, cs: seq<Utf32>,
                                 room: nat, result: Result, consumed: nat, out: seq<T>, xs: seq<Utf32>)
    requires Encodes(read, encode, source, cs)
    requires Converted(read, write, source, room, result, consumed, out, xs)
    ensures |xs| <= |cs| && xs == cs[..|xs|]
    ensures if |xs| == |cs| then result == ConversionOk && consumed == |source|
            else result == TargetExhausted && |Flat(write, cs[..|xs| + 1])| > room
    ensures |Flat(write, cs)| <= room ==> out == Flat(write, cs)
  {
    ReadsPrefix(read, encode, source, cs, xs, consumed);
    var n := |xs|;
    if n < |cs| {
      FlatPrefix(encode, cs, n);
      FlatPrefix(write, cs, n);
      assert consumed < |source|;
    } else {
      assert xs == cs;
    }
  }

  // ---- The outcome is determined

  lemma {:induction false} ReadsAgree<S>(read: Reader<S>, source: seq<S>, xs: seq<Utf32>, i: nat, ys: seq<Utf32>, j: nat)
    requires ReadsTo(read, source, xs, i) && ReadsTo(read, source, ys, j) && |xs| <= |ys|
    ensures xs == ys[..|xs|] && (|xs| == |ys| ==> i == j)
    ensures |xs| < |ys| ==> i < |source| && read(source, i).Char? && read(source, i).c == ys[|xs|]
    decreases |ys|
  {
    if ys != [] {
      var m := |ys| - 1;
      var from' := ReadsLast(read, source, ys, j);
      if |xs| == |ys| {
        var from := ReadsLast(read, source, xs, i);
        ReadsAgree(read, source, xs[..m], from, ys[..m], from');
        assert xs == xs[..m] + [xs[m]] && ys == ys[..m] + [ys[m]];
      } else {
        ReadsAgree(read, source, xs, i, ys[..m], from');
        assert ys[..m][..|xs|] == ys[..|xs|];
      }
    }
  }

  lemma NotEarlier<S, T>(read: Reader<S>, write: Writer<T>, source: seq<S>, room: nat, r: Result, n: nat, out: seq<T>,
                         xs: seq<Utf32>, r': Result, n': nat, out': seq<T>, ys: seq<Utf32>)
    requires Converted(read, write, source, room, r, n, out, xs)
    requires Converted(read, write, source, room, r', n', out', ys)
    requires |xs| <= |ys|
    ensures xs == ys
  {
    ReadsAgree(read, source, xs, n, ys, n');
    if |xs| < |ys| {
      FlatPrefix(write, ys, |xs|);
      assert false;
    }
  }

  /** Source and room determine the result, how much is consumed, and what is written. */
  lemma OutcomeIsDetermined<S, T>(read: Reader<S>, write: Writer<T>, source: seq<S>, room: nat,
                                  r: Result, n: nat, out: seq<T>, xs: seq<Utf32>,
                                  r': Result, n': nat, out': seq<T>, ys: seq<Utf32>)
    requires Converted(read, write, source, room, r, n, out, xs)
    requires Converted(read, write, source, room, r', n', out', ys)
    ensures r == r' && n == n' && out == out' && xs == ys
  {
    if |xs| <= |ys| {
      NotEarlier(read, write, source, room, r, n, out, xs, r', n', out', ys);
    } else {
      NotEarlier(read, write, source, room, r', n', out', ys, r, n, out, xs);
    }
    ReadsAgree(read, source, xs, n, ys, n');
  }
}
