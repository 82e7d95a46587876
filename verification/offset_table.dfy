/** The table all three serializers write: the number of records, where each record is, each record's key, and
    the records. Keys and records are given as the bytes they take. */
module OffsetTable {
  import opened Bytes

  function Join(parts: seq<seq<Byte>>): seq<Byte> {
    if parts == [] then [] else Join(parts[..|parts| - 1]) + parts[|parts| - 1]
  }

  /** Where the first record is, counted from the start of the table. */
  function First(keys: seq<seq<Byte>>, n: nat): nat {
    4 + 4 * n + |Join(keys)|
  }

  /** The offsets of the first `m` records. */
  function Offsets(first: nat, records: seq<seq<Byte>>, m: nat): (bs: seq<Byte>)
    requires m <= |records|
    ensures |bs| == 4 * m
    decreases m, |records|
  {
    if m == 0 then [] else Offsets(first, records, m - 1) + Little(first + |Join(records[..m - 1])|, 4)
  }

  function Table(keys: seq<seq<Byte>>, records: seq<seq<Byte>>): (bs: seq<Byte>) {
    var n := |records|;
    Little(n, 4) + (Offsets(First(keys, n), records, n) + (Join(keys) + Join(records)))
  }

  /** Keys of eight bytes. */
  function AsBytes(keys: seq<int>): (bs: seq<seq<Byte>>)
    ensures |bs| == |keys| && forall k | 0 <= k < |keys| :: bs[k] == Little(keys[k], 8)
  {
    seq(|keys|, k requires 0 <= k < |keys| => Little(keys[k], 8))
  }

  // ---- Parts

  lemma {:induction false} JoinPrefix(parts: seq<seq<Byte>>, i: nat)
    requires i < |parts|
    ensures Join(parts[..i + 1]) == Join(parts[..i]) + parts[i]
    ensures |Join(parts[..i + 1])| <= |Join(parts)|
    decreases |parts|
  {
    assert parts[..i + 1][..i] == parts[..i];
    var n := |parts| - 1;
    if i < n {
      JoinPrefix(parts[..n], i);
      assert parts[..n][..i + 1] == parts[..i + 1];
    } else {
      assert parts[..i + 1] == parts;
    }
  }

  lemma {:induction false} PartOfJoin(buffer: seq<Byte>, at: nat, parts: seq<seq<Byte>>, k: nat)
    requires k < |parts| && Holds(buffer, at, Join(parts))
    ensures Holds(buffer, at + |Join(parts[..k])|, parts[k])
  {
    var n := |parts| - 1;
    HoldsParts(buffer, at, Join(parts[..n]), parts[n]);
    if k < n {
      PartOfJoin(buffer, at, parts[..n], k);
      assert parts[..n][..k] == parts[..k];
    }
  }

  lemma {:induction false} JoinSize(parts: seq<seq<Byte>>, width: nat)
    requires forall k | 0 <= k < |parts| :: |parts[k]| == width
    ensures |Join(parts)| == width * |parts|
  {
    if parts != [] { JoinSize(parts[..|parts| - 1], width); }
  }

  lemma {:induction false} PartOfOffsets(buffer: seq<Byte>, at: nat, first: nat, records: seq<seq<Byte>>, m: nat, k: nat)
    requires k < m <= |records| && Holds(buffer, at, Offsets(first, records, m))
    ensures Holds(buffer, at + 4 * k, Little(first + |Join(records[..k])|, 4))
  {
    HoldsParts(buffer, at, Offsets(first, records, m - 1), Little(first + |Join(records[..m - 1])|, 4));
    if k < m - 1 { PartOfOffsets(buffer, at, first, records, m - 1, k); }
  }

  // ---- Writing

  /** What the table holds once the first `i` records are written. */
  ghost predicate HoldsFirst(buffer: seq<Byte>, table: nat, keys: seq<seq<Byte>>, records: seq<seq<Byte>>, i: nat)
    requires i <= |records| == |keys|
  {
    var n := |records|;
    && Holds(buffer, table, Little(n, 4))
    && Holds(buffer, table + 4, Offsets(First(keys, n), records, i))
    && Holds(buffer, table + 4 + 4 * n, Join(keys[..i]))
    && Holds(buffer, table + First(keys, n), Join(records[..i]))
  }

  lemma TableParts(buffer: seq<Byte>, table: nat, keys: seq<seq<Byte>>, records: seq<seq<Byte>>)
    requires |keys| == |records|
    ensures Holds(buffer, table, Table(keys, records)) <==> HoldsFirst(buffer, table, keys, records, |records|)
  {
    var n := |records|;
    assert records[..n] == records && keys[..n] == keys;
    HoldsFourParts(buffer, table, Little(n, 4), Offsets(First(keys, n), records, n), Join(keys), Join(records));
  }

  /** The three writes for record `i`: its offset, its key, and the record. */
  ghost predicate WroteEntry(i: nat, table: int, key: int, start: int, keyBytes: seq<Byte>, record: seq<Byte>,
                             b0: seq<Byte>, b1: seq<Byte>, b2: seq<Byte>, b3: seq<Byte>)
  {
    && Wrote(b0, b1, table + 4 + 4 * i, Little(start - table, 4))
    && Wrote(b1, b2, key, keyBytes)
    && Wrote(b2, b3, start, record)
  }

  /** Where the next key and the next record go once the first `i` are written. */
  ghost predicate Reached(table: int, key: int, start: int, keys: seq<seq<Byte>>, records: seq<seq<Byte>>, i: nat)
    requires i <= |records| == |keys|
  {
    && key == table + 4 + 4 * |records| + |Join(keys[..i])|
    && start == table + First(keys, |records|) + |Join(records[..i])|
  }

  lemma TableSize(keys: seq<seq<Byte>>, records: seq<seq<Byte>>)
    ensures |Table(keys, records)| == First(keys, |records|) + |Join(records)|
  {
  }

  lemma RoomForEntry(table: int, key: int, start: int, keys: seq<seq<Byte>>, records: seq<seq<Byte>>, i: nat)
    requires i < |records| == |keys| && Reached(table, key, start, keys, records, i)
    ensures table + 4 + 4 * i + 4 <= key && key + |keys[i]| <= table + First(keys, |records|) <= start
    ensures start + |records[i]| <= table + |Table(keys, records)|
  {
    TableSize(keys, records);
    JoinPrefix(keys, i);
    JoinPrefix(records, i);
  }

  /** The three writes leave the earlier parts alone, and extend each of the three runs by one part. */
  lemma EntryWritten(keys: seq<seq<Byte>>, records: seq<seq<Byte>>, i: nat, table: nat, key: int, start: int,
                     b0: seq<Byte>, b1: seq<Byte>, b2: seq<Byte>, b3: seq<Byte>)
    requires i < |records| == |keys| && HoldsFirst(b0, table, keys, records, i)
    requires Reached(table, key, start, keys, records, i)
    requires WroteEntry(i, table, key, start, keys[i], records[i], b0, b1, b2, b3)
    ensures HoldsFirst(b3, table, keys, records, i + 1)
  {
    RunsAreLonger(keys, records, i, table, key, start, b0, b1, b2, b3);
    NextRunsHeld(b3, table, keys, records, i, start - table);
  }

  lemma RunsAreLonger(keys: seq<seq<Byte>>, records: seq<seq<Byte>>, i: nat, table: nat, key: int, start: int,
                      b0: seq<Byte>, b1: seq<Byte>, b2: seq<Byte>, b3: seq<Byte>)
    requires i < |records| == |keys| && HoldsFirst(b0, table, keys, records, i)
    requires Reached(table, key, start, keys, records, i)
    requires WroteEntry(i, table, key, start, keys[i], records[i], b0, b1, b2, b3)
    ensures HoldsLonger(b3, table, keys, records, i, start - table)
  {
    var n := |records|;
    assert key + |keys[i]| <= table + First(keys, n) by { RoomForEntry(table, key, start, keys, records, i); }
    RunsGrow(n, i, table, key, start, First(keys, n), Little(n, 4), Offsets(First(keys, n), records, i), Join(keys[..i]),
             Join(records[..i]), keys[i], records[i], b0, b1, b2, b3);
  }

  /** Each of the runs has one part more. */
  ghost predicate HoldsLonger(b: seq<Byte>, table: nat, keys: seq<seq<Byte>>, records: seq<seq<Byte>>, i: nat, offset: int)
    requires i < |records| == |keys|
  {
    && Holds(b, table, Little(|records|, 4))
    && Holds(b, table + 4, Offsets(First(keys, |records|), records, i) + Little(offset, 4))
    && Holds(b, table + 4 + 4 * |records|, Join(keys[..i]) + keys[i])
    && Holds(b, table + First(keys, |records|), Join(records[..i]) + records[i])
  }

  lemma NextRunsHeld(b: seq<Byte>, table: nat, keys: seq<seq<Byte>>, records: seq<seq<Byte>>, i: nat, offset: int)
    requires i < |records| == |keys| && offset == First(keys, |records|) + |Join(records[..i])|
    requires HoldsLonger(b, table, keys, records, i, offset)
    ensures HoldsFirst(b, table, keys, records, i + 1)
  {
    NextRuns(keys, records, i, offset);
  }

  lemma EntryReached(keys: seq<seq<Byte>>, records: seq<seq<Byte>>, i: nat, table: nat, key: int, start: int)
    requires i < |records| == |keys| && Reached(table, key, start, keys, records, i)
    ensures Reached(table, key + |keys[i]|, start + |records[i]|, keys, records, i + 1)
  {
    JoinPrefix(keys, i);
    JoinPrefix(records, i);
  }

  lemma EntryFrame(keys: seq<seq<Byte>>, records: seq<seq<Byte>>, i: nat, table: nat, key: int, start: int,
                   b0: seq<Byte>, b1: seq<Byte>, b2: seq<Byte>, b3: seq<Byte>)
    requires i < |records| == |keys| && Holds(b0, table, Little(|records|, 4))
    requires Reached(table, key, start, keys, records, i)
    requires WroteEntry(i, table, key, start, keys[i], records[i], b0, b1, b2, b3)
    ensures OnlyWritten(b0, b3, table, table + |Table(keys, records)|) && Holds(b3, table, Little(|records|, 4))
  {
    RoomForEntry(table, key, start, keys, records, i);
    RegionWritten(i, table, key, start, table + |Table(keys, records)|, Little(|records|, 4), keys[i], records[i],
                  b0, b1, b2, b3);
  }

  /** A table of which the first `i` records are written, and nothing was touched outside it. */
  ghost predicate Underway(before: seq<Byte>, b: seq<Byte>, table: nat, keys: seq<seq<Byte>>, records: seq<seq<Byte>>,
                           i: nat, key: int, start: int)
    requires i <= |records| == |keys|
  {
    && HoldsFirst(b, table, keys, records, i) && Reached(table, key, start, keys, records, i)
    && OnlyWritten(before, b, table, table + |Table(keys, records)|)
  }

  lemma Started(before: seq<Byte>, b: seq<Byte>, table: nat, keys: seq<seq<Byte>>, records: seq<seq<Byte>>)
    requires |keys| == |records| && table + |Table(keys, records)| <= |b|
    requires Wrote(before, b, table, Little(|records|, 4))
    ensures var key := table + 4 + 4 * |records|;
            Underway(before, b, table, keys, records, 0, key, table + First(keys, |records|))
  {
    TableSize(keys, records);
    assert keys[..0] == [] && records[..0] == [];
  }

  lemma NextEntry(before: seq<Byte>, table: nat, keys: seq<seq<Byte>>, records: seq<seq<Byte>>, i: nat, key: int, start: int,
                  b0: seq<Byte>, b1: seq<Byte>, b2: seq<Byte>, b3: seq<Byte>)
    requires i < |records| == |keys| && Underway(before, b0, table, keys, records, i, key, start)
    requires WroteEntry(i, table, key, start, keys[i], records[i], b0, b1, b2, b3)
    ensures Underway(before, b3, table, keys, records, i + 1, key + |keys[i]|, start + |records[i]|)
  {
    EntryFrame(keys, records, i, table, key, start, b0, b1, b2, b3);
    EntryWritten(keys, records, i, table, key, start, b0, b1, b2, b3);
    EntryReached(keys, records, i, table, key, start);
  }

  lemma AllWritten(before: seq<Byte>, b: seq<Byte>, table: nat, keys: seq<seq<Byte>>, records: seq<seq<Byte>>,
                   key: int, start: int)
    requires |keys| == |records| && Underway(before, b, table, keys, records, |records|, key, start)
    ensures start == table + |Table(keys, records)| && Wrote(before, b, table, Table(keys, records))
  {
    TableSize(keys, records);
    assert records[..|records|] == records;
    TableParts(b, table, keys, records);
  }

  lemma NextRuns(keys: seq<seq<Byte>>, records: seq<seq<Byte>>, i: nat, offset: int)
    requires i < |records| == |keys| && offset == First(keys, |records|) + |Join(records[..i])|
    ensures Offsets(First(keys, |records|), records, i + 1)
         == Offsets(First(keys, |records|), records, i) + Little(offset, 4)
    ensures Join(keys[..i + 1]) == Join(keys[..i]) + keys[i]
    ensures Join(records[..i + 1]) == Join(records[..i]) + records[i]
  {
    JoinPrefix(keys, i);
    JoinPrefix(records, i);
  }

  lemma RunsGrow(n: nat, i: nat, table: nat, key: int, start: int, first: nat, count: seq<Byte>,
                 offsets: seq<Byte>, keyRun: seq<Byte>, run: seq<Byte>, keyBytes: seq<Byte>, record: seq<Byte>,
                 b0: seq<Byte>, b1: seq<Byte>, b2: seq<Byte>, b3: seq<Byte>)
    requires i < n && |offsets| == 4 * i && key == table + 4 + 4 * n + |keyRun| && start == table + first + |run|
    requires key + |keyBytes| <= table + first
    requires |count| == 4 && Holds(b0, table, count)
    requires Holds(b0, table + 4, offsets) && Holds(b0, table + 4 + 4 * n, keyRun) && Holds(b0, table + first, run)
    requires WroteEntry(i, table, key, start, keyBytes, record, b0, b1, b2, b3)
    ensures Holds(b3, table, count) && Holds(b3, table + 4, offsets + Little(start - table, 4))
    ensures Holds(b3, table + 4 + 4 * n, keyRun + keyBytes) && Holds(b3, table + first, run + record)
  {
    ThreeGrow(b0, b1, b2, b3, table + 4, offsets, table + 4 + 4 * i, Little(start - table, 4),
              table + 4 + 4 * n, keyRun, key, keyBytes, table + first, run, start, record);
    HoldsStays(b0, b1, table + 4 + 4 * i, table + 8 + 4 * i, table, count);
    HoldsStays(b1, b2, key, key + |keyBytes|, table, count);
    HoldsStays(b2, b3, start, start + |record|, table, count);
  }

  lemma RegionWritten(i: nat, table: nat, key: int, start: int, end: int, count: seq<Byte>,
                      keyBytes: seq<Byte>, record: seq<Byte>,
                      b0: seq<Byte>, b1: seq<Byte>, b2: seq<Byte>, b3: seq<Byte>)
    requires table + 4 + 4 * i + 4 <= key && key + |keyBytes| <= start && start + |record| <= end
    requires WroteEntry(i, table, key, start, keyBytes, record, b0, b1, b2, b3)
    requires |count| == 4 && Holds(b0, table, count)
    ensures OnlyWritten(b0, b3, table, end) && Holds(b3, table, count)
  {
    var offset := table + 4 + 4 * i;
    OnlyWrittenTwice(b0, b1, b2, offset, offset + 4, key, key + |keyBytes|, table + 4, start);
    OnlyWrittenTwice(b0, b2, b3, table + 4, start, start, start + |record|, table + 4, end);
    HoldsStays(b0, b3, table + 4, end, table, count);
  }

  // ---- Reading

  function OffsetIn(buffer: seq<Byte>, table: nat, k: nat): nat
    requires table + 8 + 4 * k <= |buffer|
  {
    Number(buffer[table + 4 + 4 * k..table + 8 + 4 * k])
  }

  /** The number at the place of key `k`, for keys of eight bytes. */
  function KeyIn(buffer: seq<Byte>, table: nat, n: nat, k: nat): nat
    requires table + 12 + 4 * n + 8 * k <= |buffer|
  {
    Number(buffer[table + 4 + 4 * n + 8 * k..table + 12 + 4 * n + 8 * k])
  }

  /** Offset `k` points at the start of record `k`, which is all there. */
  lemma OffsetPointsAtRecord(buffer: seq<Byte>, table: nat, keys: seq<seq<Byte>>, records: seq<seq<Byte>>, k: nat)
    requires k < |records| == |keys| && |Table(keys, records)| < 0x1_0000_0000
    requires Holds(buffer, table, Table(keys, records))
    ensures table + 8 + 4 * k <= |buffer|
    ensures OffsetIn(buffer, table, k) == First(keys, |records|) + |Join(records[..k])|
    ensures Holds(buffer, table + OffsetIn(buffer, table, k), records[k])
  {
    TableParts(buffer, table, keys, records);
    TableSize(keys, records);
    assert records[..|records|] == records;
    OffsetIsRead(buffer, table, First(keys, |records|), records, k);
    PartOfJoin(buffer, table + First(keys, |records|), records, k);
  }

  lemma OffsetIsRead(buffer: seq<Byte>, table: nat, first: nat, records: seq<seq<Byte>>, k: nat)
    requires k < |records| && first + |Join(records)| < 0x1_0000_0000
    requires Holds(buffer, table + 4, Offsets(first, records, |records|))
    ensures table + 8 + 4 * k <= |buffer| && OffsetIn(buffer, table, k) == first + |Join(records[..k])|
  {
    PartOfOffsets(buffer, table + 4, first, records, |records|, k);
    JoinPrefix(records, k);
    Limits();
    ReadsLittle(buffer, table + 4 + 4 * k, first + |Join(records[..k])|, 4);
  }

  /** Key `k` is at the place its position gives, when the keys have the same size. */
  lemma KeyIsAtItsPlace(buffer: seq<Byte>, table: nat, keys: seq<seq<Byte>>, records: seq<seq<Byte>>, width: nat, k: nat)
    requires k < |records| == |keys| && Holds(buffer, table, Table(keys, records))
    requires forall i | 0 <= i < |keys| :: |keys[i]| == width
    ensures Holds(buffer, table + 4 + 4 * |keys| + width * k, keys[k])
  {
    TableParts(buffer, table, keys, records);
    assert keys[..|keys|] == keys;
    PartOfJoin(buffer, table + 4 + 4 * |keys|, keys, k);
    JoinSize(keys[..k], width);
  }

  lemma CountIsRead(buffer: seq<Byte>, table: nat, keys: seq<seq<Byte>>, records: seq<seq<Byte>>)
    requires |records| == |keys| && |Table(keys, records)| < 0x1_0000_0000
    requires Holds(buffer, table, Table(keys, records))
    ensures table + First(keys, |records|) + |Join(records)| <= |buffer|
    ensures Number(buffer[table..table + 4]) == |records|
  {
    TableParts(buffer, table, keys, records);
    TableSize(keys, records);
    Limits();
    ReadsLittle(buffer, table, |records|, 4);
  }
}
