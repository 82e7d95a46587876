/** MD5 as a stream: whatever pieces a message is fed in, the transform runs over the blocks of the padded message.
    The block transform itself is a parameter. The machine is little-endian. */
module Md5 {
  import opened Bytes
  import opened Sequences

  type Word = w: int | 0 <= w < 0x1_0000_0000

  datatype Words = Words(a: Word, b: Word, c: Word, d: Word) {
    function Digest(): (bs: seq<Byte>)
      ensures |bs| == 16
    {
      Little(a, 4) + Little(b, 4) + Little(c, 4) + Little(d, 4)
    }
  }

  type Transform = (Words, seq<Byte>) -> Words

  const INITIAL := Words(0x67452301, 0xefcdab89, 0x98badcfe, 0x10325476)

  // ---- What the digest is: sections 3.1 and 3.2 of RFC 1321

  /** The transform run over the first `k` blocks of a message. */
  ghost function Chain(f: Transform, message: seq<Byte>, k: nat): Words
    requires 64 * k <= |message|
  {
    if k == 0 then INITIAL else f(Chain(f, message, k - 1), message[64 * (k - 1)..64 * k])
  }

  function Zeros(n: nat): seq<Byte> {
    seq(n, _ => 0)
  }

  /** One bit and then zeros, as few as reach 448 modulo 512 bits; then the length in bits. */
  function Padding(n: nat): seq<Byte> {
    [0x80] + Zeros(if n % 64 <= 55 then 55 - n % 64 else 119 - n % 64) + Little(8 * n, 8)
  }

  function Padded(message: seq<Byte>): seq<Byte> {
    message + Padding(|message|)
  }

  predicate FillsBlocks(n: nat, padding: nat) {
    (n + padding) % 64 == 0
  }

  lemma PaddingSize(n: nat)
    ensures |Padding(n)| == if n % 64 <= 55 then 64 - n % 64 else 128 - n % 64
  {
  }

  /** Padding is always added, and the least that fills the last block. */
  lemma PaddingIsLeast(n: nat)
    ensures var p := |Padding(n)|;
            9 <= p <= 72 && FillsBlocks(n, p) && forall q | 9 <= q < p :: !FillsBlocks(n, q)
  {
    var p := |Padding(n)|;
    PaddingSize(n);
    hide Padding;
    var c := n / 64 + (if n % 64 <= 55 then 1 else 2);
    assert n + p == 64 * c;
    assert 64 * c % 64 == 0;
    forall q | 9 <= q < p ensures !FillsBlocks(n, q) {
      NotAligned(c, p - q);
      assert n + q == 64 * c - (p - q);
    }
  }

  lemma NotAligned(c: int, d: int)
    requires 0 < d <= 63
    ensures (64 * c - d) % 64 != 0
  {
    assert 64 * c - d == 64 * (c - 1) + (64 - d);
  }

  /** Of messages below 2^61 bytes, no two are padded to the same. */
  lemma PaddedIsInjective(m: seq<Byte>, m': seq<Byte>)
    requires |m| < 0x2000_0000_0000_0000 && |m'| < 0x2000_0000_0000_0000
    requires Padded(m) == Padded(m')
    ensures m == m'
  {
    var p := Padded(m);
    assert p[|p| - 8..] == Little(8 * |m|, 8) && p[|p| - 8..] == Little(8 * |m'|, 8);
    Limits();
    NumberOfLittle(8 * |m|, 8);
    NumberOfLittle(8 * |m'|, 8);
    assert m == p[..|m|] && m' == p[..|m'|];
  }

  lemma {:induction false} ChainOfPrefix(f: Transform, message: seq<Byte>, more: seq<Byte>, k: nat)
    requires 64 * k <= |message|
    ensures Chain(f, message + more, k) == Chain(f, message, k)
  {
    if k > 0 {
      ChainOfPrefix(f, message, more, k - 1);
      assert (message + more)[64 * (k - 1)..64 * k] == message[64 * (k - 1)..64 * k];
    }
  }

  /** How the padding falls into blocks behind the `tail` of a message: one block, or two. */
  ghost predicate EndsWith(rest: seq<Byte>, tail: seq<Byte>, length: seq<Byte>) {
    && |tail| < 64 && |length| == 8
    && rest == if |tail| <= 55 then tail + [0x80] + (Zeros(55 - |tail|) + length)
               else (tail + [0x80] + Zeros(63 - |tail|)) + (Zeros(56) + length)
  }

  lemma PaddedTail(tail: seq<Byte>, n: nat)
    requires |tail| == n % 64
    ensures EndsWith(tail + Padding(n), tail, Little(8 * n, 8))
  {
    PaddingSize(n);
    if |tail| > 55 {
      assert Zeros(119 - n % 64) == Zeros(63 - n % 64) + Zeros(56);
    }
  }

  lemma PaddedEnd(message: seq<Byte>, k: nat)
    requires k == |message| / 64
    ensures 64 * k <= |message| < 64 * (k + 1) && 64 * k <= |Padded(message)|
    ensures EndsWith(Padded(message)[64 * k..], message[64 * k..], Little(8 * |message|, 8))
  {
    PaddedTail(message[64 * k..], |message|);
    assert Padded(message)[64 * k..] == message[64 * k..] + Padding(|message|);
  }

  lemma FirstBlock(whole: seq<Byte>, k: nat, a: seq<Byte>, b: seq<Byte>)
    requires 64 * k <= |whole| && whole[64 * k..] == a + b && |a| == 64
    ensures 64 * (k + 1) + |b| == |whole| && whole[64 * k..64 * (k + 1)] == a && whole[64 * (k + 1)..] == b
  {
    assert whole[64 * k..64 * (k + 1)] == whole[64 * k..][..64];
    assert whole[64 * (k + 1)..] == whole[64 * k..][64..];
  }

  // ---- The context

  /** Block `k - 1`, or what the memory of the block buffer first held. */
  ghost function LastBlock(message: seq<Byte>, initial: seq<Byte>, k: nat): (bs: seq<Byte>)
    requires |initial| == 64 && 64 * k <= |message|
    ensures |bs| == 64
  {
    if k == 0 then initial else message[64 * (k - 1)..64 * k]
  }

  /** The block buffer: the bytes not yet transformed, and behind them what is left of the block before. */
  ghost function Buffered(message: seq<Byte>, initial: seq<Byte>): (bs: seq<Byte>)
    requires |initial| == 64
    ensures |bs| == 64
  {
    var k := |message| / 64;
    message[64 * k..] + LastBlock(message, initial, k)[|message| - 64 * k..]
  }

  lemma LastBlockOfPrefix(message: seq<Byte>, more: seq<Byte>, initial: seq<Byte>, k: nat)
    requires |initial| == 64 && 64 * k <= |message|
    ensures LastBlock(message + more, initial, k) == LastBlock(message, initial, k)
  {
  }

  const WORD := 0x1_0000_0000

  lemma DivMod(q: nat, r: nat)
    requires r < WORD
    ensures (q * WORD + r) / WORD == q && (q * WORD + r) % WORD == r
  {
  }

  lemma ModSum(a: nat, b: nat)
    ensures (a % WORD + b) % WORD == (a + b) % WORD
  {
    DivMod(a / WORD, a % WORD);
    var c := a % WORD + b;
    assert a + b == (a / WORD + c / WORD) * WORD + c % WORD;
    DivMod(a / WORD + c / WORD, c % WORD);
  }

  /** The two count words, with the carry between them, count bits modulo 2^64. */
  lemma BitCount(n: nat, len: nat, low: Word, high: Word)
    requires low == 8 * n % WORD && high == 8 * n / WORD % WORD
    ensures var low' := (low + 8 * len % WORD) % WORD;
            && low' == 8 * (n + len) % WORD
            && (high + (if low' < low then 1 else 0) + len / 0x2000_0000) % WORD == 8 * (n + len) / WORD % WORD
  {
    var add := 8 * len % WORD;
    var carry := if low + add >= WORD then 1 else 0;
    var q := 8 * n / WORD + carry + len / 0x2000_0000;
    assert 8 * (n + len) == q * WORD + (low + add - carry * WORD);
    DivMod(q, low + add - carry * WORD);
    DivMod(carry, low + add - carry * WORD);
    assert (low + add) % WORD == low + add - carry * WORD;
    ModSum(8 * n / WORD, carry + len / 0x2000_0000);
  }

  lemma BytesBuffered(n: nat)
    ensures 8 * n % WORD / 8 % 64 == n % 64
  {
    var q := 8 * n / WORD;
    var m := n - q * 0x2000_0000;
    assert 8 * n % WORD == 8 * m;
    assert 8 * m / 8 == m;
    assert m == n - 64 * (q * 0x80_0000);
  }

  class MD5Context {
    const transform: Transform
    var buf: Words
    var low: Word
    var high: Word
    const block: array<Byte>
    /** The bytes fed in so far, and what the memory of `block` held before. */
    ghost var message: seq<Byte>
    ghost const initial: seq<Byte>

    /** The whole context follows from the bytes fed in, not from the pieces they came in. */
    ghost predicate Valid()
      reads this, block
    {
      && block.Length == 64 && |initial| == 64
      && buf == Chain(transform, message, |message| / 64)
      && low == 8 * |message| % WORD && high == 8 * |message| / WORD % WORD
      && block[..] == Buffered(message, initial)
    }

    constructor Init(f: Transform, memory: array<Byte>)
      requires memory.Length == 64
      ensures Valid() && message == [] && transform == f && block == memory && initial == memory[..]
    {
      transform, block, initial, message := f, memory, memory[..], [];
      buf := INITIAL;
      low, high := 0, 0;
    }

    /** Count the new bytes, and say how many were in the buffer. */
    method Count(len: nat) returns (buffered: nat)
      requires low == 8 * |message| % WORD && high == 8 * |message| / WORD % WORD && len < WORD
      modifies `low, `high
      ensures buffered == |message| % 64
      ensures low == 8 * (|message| + len) % WORD && high == 8 * (|message| + len) / WORD % WORD
    {
      BitCount(|message|, len, low, high);
      ModSum(high + 1, len / 0x2000_0000);
      var t := low;
      low := (t + 8 * len % WORD) % WORD;
      if low < t { high := (high + 1) % WORD; }
      high := (high + len / 0x2000_0000) % WORD;
      BytesBuffered(|message|);
      buffered := t / 8 % 64;
    }

    /** Fill the buffer from `at` on, and run the transform. */
    method Absorb(piece: seq<Byte>, at: nat, ghost whole: seq<Byte>, ghost k: nat)
      requires block.Length == 64 && at + |piece| == 64 && 64 * (k + 1) <= |whole| && |initial| == 64
      requires block[..at] + piece == whole[64 * k..64 * (k + 1)] && buf == Chain(transform, whole, k)
      modifies `buf, block
      ensures buf == Chain(transform, whole, k + 1) && block[..] == LastBlock(whole, initial, k + 1)
    {
      ghost var before := block[..];
      PutBytes(block, at, piece);
      WroteIs(before, block[..], at, piece);
      assert block[..] == whole[64 * k..64 * (k + 1)];
      buf := transform(buf, block[..]);
      assert 64 * (k + 1 - 1) == 64 * k;
    }

    /** Put what does not fill the buffer in its front. */
    method Keep(piece: seq<Byte>, at: nat, ghost whole: seq<Byte>, ghost k: nat)
      requires block.Length == 64 && |initial| == 64 && at + |piece| < 64 && 64 * k <= |whole|
      requires block[at..] == LastBlock(whole, initial, k)[at..] && block[..at] + piece == whole[64 * k..]
      modifies block
      ensures block[..] == Buffered(whole, initial)
    {
      ghost var before := block[..];
      PutBytes(block, at, piece);
      WroteIs(before, block[..], at, piece);
      assert |whole| / 64 == k;
      assert before[at + |piece|..] == before[at..][|piece|..];
    }

    /** The part of Update for a buffer that already has `t` bytes in it. */
    method FinishBlock(data: seq<Byte>, t: nat, ghost whole: seq<Byte>, ghost k: nat) returns (i: nat)
      requires block.Length == 64 && |initial| == 64 && 64 * k <= |whole| && 0 < t < 64
      requires block[..t] + data == whole[64 * k..] && block[t..] == LastBlock(whole, initial, k)[t..]
      requires buf == Chain(transform, whole, k) && |data| >= 64 - t
      modifies `buf, block
      ensures i == 64 - t && 64 * (k + 1) <= |whole|
      ensures buf == Chain(transform, whole, k + 1) && block[..] == LastBlock(whole, initial, k + 1)
    {
      i := 64 - t;
      assert block[..t] + data[..i] == whole[64 * k..][..64];
      Absorb(data[..i], t, whole, k);
    }

    /** The rest of Update, from byte `from` of the data on. */
    method Blocks(data: seq<Byte>, from: nat, ghost whole: seq<Byte>, ghost done: nat)
      requires block.Length == 64 && |initial| == 64 && from <= |data|
      requires 64 * done <= |whole| && whole[64 * done..] == data[from..]
      requires buf == Chain(transform, whole, done) && block[..] == LastBlock(whole, initial, done)
      modifies `buf, block
      ensures buf == Chain(transform, whole, |whole| / 64) && block[..] == Buffered(whole, initial)
    {
      var i: nat := from;
      ghost var k: nat := done;
      while |data| - i >= 64
        invariant from <= i <= |data| && 64 * k <= |whole| && whole[64 * k..] == data[i..]
        invariant buf == Chain(transform, whole, k) && block[..] == LastBlock(whole, initial, k)
      {
        assert whole[64 * k..][..64] == data[i..][..64];
        Absorb(data[i..i + 64], 0, whole, k);
        assert whole[64 * k..][64..] == data[i..][64..];
        i := i + 64;
        k := k + 1;
      }
      Keep(data[i..], 0, whole, k);
    }

    method Update(data: seq<Byte>)
      requires Valid() && |data| < WORD
      modifies this, block
      ensures Valid() && message == old(message) + data
    {
      ghost var whole, k := message + data, |message| / 64;
      Before(transform, message, data, initial, |message| % 64);
      var t := Count(|data|);
      message := whole;
      Feed(data, t, whole, k);
    }

    /** The part of Update after counting. */
    method Feed(data: seq<Byte>, t: nat, ghost whole: seq<Byte>, ghost k: nat)
      requires block.Length == 64 && |initial| == 64 && t < 64 && 64 * k + t + |data| == |whole|
      requires buf == Chain(transform, whole, k)
      requires block[..t] + data == whole[64 * k..] && block[t..] == LastBlock(whole, initial, k)[t..]
      requires t == 0 ==> block[..] == LastBlock(whole, initial, k)
      requires |data| >= 64 - t ==> whole[64 * (k + 1)..] == data[64 - t..]
      modifies `buf, block
      ensures buf == Chain(transform, whole, |whole| / 64) && block[..] == Buffered(whole, initial)
    {
      if t != 0 {
        if |data| < 64 - t {
          assert |whole| / 64 == k;
          Keep(data, t, whole, k);
        } else {
          var i := FinishBlock(data, t, whole, k);
          Blocks(data, i, whole, k + 1);
        }
      } else {
        assert block[..0] + data == data;
        Blocks(data, 0, whole, k);
      }
    }

    /** The digest is that of the chain over the padded message. */
    method Final() returns (digest: seq<Byte>)
      requires Valid()
      modifies `buf, block
      ensures digest == Chain(transform, Padded(message), |Padded(message)| / 64).Digest()
    {
      ghost var k := |message| / 64;
      var count := BytesHeld();
      PaddedEnd(message, k);
      ChainOfPrefix(transform, message, Padding(|message|), k);
      assert block[..count] == message[64 * k..];
      Pad(count, Little(low, 4) + Little(high, 4), Padded(message), k, message[64 * k..]);
      digest := buf.Digest();
    }

    /** How many bytes are in the buffer; and that the count words are the last eight bytes of the padding. */
    method BytesHeld() returns (count: nat)
      requires low == 8 * |message| % WORD && high == 8 * |message| / WORD % WORD
      ensures count == |message| % 64 && Little(low, 4) + Little(high, 4) == Little(8 * |message|, 8)
    {
      BytesBuffered(|message|);
      LittleInHalves(8 * |message|);
      count := low / 8 % 64;
    }

    /** The part of Final between counting and handing out the digest. */
    method Pad(held: nat, length: seq<Byte>, ghost whole: seq<Byte>, ghost done: nat, ghost tail: seq<Byte>)
      requires block.Length == 64 && |initial| == 64 && held < 64 && block[..held] == tail
      requires 64 * done <= |whole| && EndsWith(whole[64 * done..], tail, length)
      requires buf == Chain(transform, whole, done)
      modifies `buf, block
      ensures buf == Chain(transform, whole, |whole| / 64)
    {
      PutBytes(block, held, [0x80]);
      assert block[..held + 1] == tail + [0x80];
      var count := 64 - 1 - held;
      if count < 8 {
        EndTwoBlocks(count, length, held + 1, whole, done);
      } else {
        EndLastBlock(Zeros(count - 8) + length, held + 1, whole, done);
      }
    }

    /** Zeros to the end of the block, and then a block of its own for the length. */
    method EndTwoBlocks(count: nat, length: seq<Byte>, at: nat, ghost whole: seq<Byte>, ghost k: nat)
      requires block.Length == 64 && |initial| == 64 && at + count == 64 && |length| == 8 && 64 * k <= |whole|
      requires whole[64 * k..] == (block[..at] + Zeros(count)) + (Zeros(56) + length) && buf == Chain(transform, whole, k)
      modifies `buf, block
      ensures buf == Chain(transform, whole, |whole| / 64)
    {
      EndBlock(Zeros(count), at, whole, k, Zeros(56) + length);
      assert block[..0] + (Zeros(56) + length) == Zeros(56) + length;
      EndLastBlock(Zeros(56) + length, 0, whole, k + 1);
    }

    method EndLastBlock(piece: seq<Byte>, at: nat, ghost whole: seq<Byte>, ghost k: nat)
      requires block.Length == 64 && |initial| == 64 && at + |piece| == 64 && 64 * k <= |whole|
      requires whole[64 * k..] == block[..at] + piece && buf == Chain(transform, whole, k)
      modifies `buf, block
      ensures buf == Chain(transform, whole, |whole| / 64)
    {
      assert block[..at] + piece == (block[..at] + piece) + [];
      EndBlock(piece, at, whole, k, []);
    }

    /** Fill the buffer from `at` on, and run the transform; `rest` is what comes behind. */
    method EndBlock(piece: seq<Byte>, at: nat, ghost whole: seq<Byte>, ghost k: nat, ghost rest: seq<Byte>)
      requires block.Length == 64 && |initial| == 64 && at + |piece| == 64 && 64 * k <= |whole|
      requires whole[64 * k..] == (block[..at] + piece) + rest && buf == Chain(transform, whole, k)
      modifies `buf, block
      ensures 64 * (k + 1) + |rest| == |whole| && whole[64 * (k + 1)..] == rest && buf == Chain(transform, whole, k + 1)
    {
      FirstBlock(whole, k, block[..at] + piece, rest);
      Absorb(piece, at, whole, k);
    }
  }

  function Concat(pieces: seq<seq<Byte>>): seq<Byte> {
    if pieces == [] then [] else Concat(pieces[..|pieces| - 1]) + pieces[|pieces| - 1]
  }

  /** The pieces are fed in one by one. */
  method FeedAll(context: MD5Context, pieces: seq<seq<Byte>>)
    requires context.Valid() && forall k | 0 <= k < |pieces| :: |pieces[k]| < WORD
    modifies context, context.block
    ensures context.Valid() && context.message == old(context.message) + Concat(pieces)
    decreases |pieces|
  {
    if pieces == [] { return; }
    ghost var before := context.message;
    FeedAll(context, pieces[..|pieces| - 1]);
    OnePieceMore(before, pieces);
    context.Update(pieces[|pieces| - 1]);
  }

  lemma OnePieceMore(before: seq<Byte>, pieces: seq<seq<Byte>>)
    requires pieces != []
    ensures before + Concat(pieces) == (before + Concat(pieces[..|pieces| - 1])) + pieces[|pieces| - 1]
  {
    Associative(before, Concat(pieces[..|pieces| - 1]), pieces[|pieces| - 1]);
  }

  /** A message fed in in pieces of any sizes: the digest is that of the whole, wherever it was cut. */
  method DigestOf(f: Transform, pieces: seq<seq<Byte>>) returns (digest: seq<Byte>)
    requires forall k | 0 <= k < |pieces| :: |pieces[k]| < WORD
    ensures digest == Chain(f, Padded(Concat(pieces)), |Padded(Concat(pieces))| / 64).Digest()
  {
    var memory := new Byte[64];
    var context := new MD5Context.Init(f, memory);
    FeedAll(context, pieces);
    assert [] + Concat(pieces) == Concat(pieces);
    digest := context.Final();
  }

  /** What holds before any of the new data is used. */
  lemma Before(f: Transform, message: seq<Byte>, data: seq<Byte>, initial: seq<Byte>, t: nat)
    requires |initial| == 64 && t == |message| % 64
    ensures var whole, k, bs := message + data, |message| / 64, Buffered(message, initial);
            && 64 * k + t == |message| && Chain(f, whole, k) == Chain(f, message, k)
            && bs[..t] + data == whole[64 * k..] && bs[t..] == LastBlock(whole, initial, k)[t..]
            && (t == 0 ==> bs == LastBlock(whole, initial, k))
            && (|data| >= 64 - t ==> whole[64 * (k + 1)..] == data[64 - t..])
  {
    var k := |message| / 64;
    ChainOfPrefix(f, message, data, k);
    LastBlockOfPrefix(message, data, initial, k);
    TwoParts(message[64 * k..], LastBlock(message, initial, k)[t..], t);
    Suffixes(message, data, 64 * k, t);
    if t == 0 { assert message[64 * k..] == []; }
  }

  lemma TwoParts(a: seq<Byte>, b: seq<Byte>, t: nat)
    requires |a| == t
    ensures (a + b)[..t] == a && (a + b)[t..] == b
  {
  }

  lemma Suffixes(message: seq<Byte>, data: seq<Byte>, from: nat, t: nat)
    requires from + t == |message| && t < 64
    ensures (message + data)[from..] == message[from..] + data
    ensures |data| >= 64 - t ==> (message + data)[from + 64..] == data[64 - t..]
  {
  }
}
