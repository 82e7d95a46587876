/** The serializer of RangeMap, and StaticRangeMap, which looks addresses up straight in the bytes it wrote. */
module RangeMapSerializer {
  import opened Addresses
  import opened Bytes
  import opened MapSerializer
  import opened OffsetTable
  import opened Options
  import opened RangeMaps
  import opened RangeTree
  import opened StaticMap

  /** The ranges of a map: their addresses fit eight bytes, and none has every address, which no size could say. */
  ghost predicate AreRanges(items: seq<Item<Entry>>) {
    && Ordered(items)
    && forall i | 0 <= i < |items| :: 0 <= items[i].base && items[i].high < ADDRESS_LIMIT
                                      && items[i].high - items[i].base + 1 < ADDRESS_LIMIT
  }

  function RangeRecord(x: Item<Entry>): seq<Byte> {
    Little(x.base, 8) + x.entry
  }

  function RangeRecords(items: seq<Item<Entry>>): (records: seq<seq<Byte>>)
    ensures |records| == |items| && forall i | 0 <= i < |items| :: records[i] == RangeRecord(items[i])
  {
    seq(|items|, i requires 0 <= i < |items| => RangeRecord(items[i]))
  }

  function EncodeRanges(items: seq<Item<Entry>>): seq<Byte> {
    Table(AsBytes(Highs(items)), RangeRecords(items))
  }

  method SizeOf(items: seq<Item<Entry>>) returns (size: nat)
    ensures size == |EncodeRanges(items)|
  {
    size := (1 + |items|) * 4;
    ghost var records := RangeRecords(items);
    for i := 0 to |items|
      invariant size == 4 + 4 * |items| + 8 * i + |Join(records[..i])|
    {
      JoinPrefix(records, i);
      size := size + 8;
      size := size + 8;
      size := size + |items[i].entry|;
    }
    assert records[..|items|] == records;
    JoinSize(AsBytes(Highs(items)), 8);
    TableSize(AsBytes(Highs(items)), records);
  }

  method Write(items: seq<Item<Entry>>, buffer: array<Byte>, start: nat) returns (dest: nat)
    requires start + |EncodeRanges(items)| <= buffer.Length
    modifies buffer
    ensures dest == start + |EncodeRanges(items)| && Wrote(old(buffer[..]), buffer[..], start, EncodeRanges(items))
  {
    ghost var keys, records := AsBytes(Highs(items)), RangeRecords(items);
    TableSize(keys, records);
    JoinSize(keys, 8);
    PutLittle(buffer, start, |items|, 4);
    Started(old(buffer[..]), buffer[..], start, keys, records);
    dest := start + 4 + 4 * |items|;
    var key := dest;
    dest := dest + 8 * |items|;
    for i := 0 to |items|
      invariant Underway(old(buffer[..]), buffer[..], start, keys, records, i, key, dest)
    {
      RoomForEntry(start, key, dest, keys, records, i);
      ghost var b, k, d := buffer[..], key, dest;
      ghost var b1, b2;
      key, dest, b1, b2 := WriteRange(items[i], i, buffer, start, key, dest);
      NextEntry(old(buffer[..]), start, keys, records, i, k, d, b, b1, b2, buffer[..]);
    }
    AllWritten(old(buffer[..]), buffer[..], start, keys, records, key, dest);
  }

  /** The body of the loop over the ranges. */
  method WriteRange(x: Item<Entry>, i: nat, buffer: array<Byte>, table: nat, key: nat, start: nat)
    returns (key': nat, dest: nat, ghost b1: seq<Byte>, ghost b2: seq<Byte>)
    requires table + 4 + 4 * i + 4 <= key && key + 8 <= start && start + |RangeRecord(x)| <= buffer.Length
    modifies buffer
    ensures key' == key + 8 && dest == start + |RangeRecord(x)|
    ensures WroteEntry(i, table, key, start, Little(x.high, 8), RangeRecord(x), old(buffer[..]), b1, b2, buffer[..])
  {
    PutLittle(buffer, table + 4 + 4 * i, start - table, 4);
    b1 := buffer[..];
    PutLittle(buffer, key, x.high, 8);
    b2 := buffer[..];
    key' := key + 8;
    PutLittle(buffer, start, x.base, 8);
    ghost var b3 := buffer[..];
    PutBytes(buffer, start + 8, x.entry);
    dest := start + 8 + |x.entry|;
    RecordWritten(b2, b3, buffer[..], start, Little(x.base, 8), x.entry);
  }

  lemma RecordWritten(before: seq<Byte>, between: seq<Byte>, after: seq<Byte>, at: nat, a: seq<Byte>, b: seq<Byte>)
    requires Wrote(before, between, at, a) && Wrote(between, after, at + |a|, b)
    ensures Wrote(before, after, at, a + b)
  {
    HoldsStays(between, after, at + |a|, at + |a| + |b|, at, a);
    HoldsParts(after, at, a, b);
    OnlyWrittenTwice(before, between, after, at, at + |a|, at + |a|, at + |a| + |b|, at, at + |a + b|);
  }

  // ---- Lookup in the bytes

  ghost predicate MapAt(buffer: seq<Byte>, table: nat, items: seq<Item<Entry>>) {
    AreRanges(items) && |EncodeRanges(items)| < 0x1_0000_0000 && Holds(buffer, table, EncodeRanges(items))
  }

  /** A reader finds the count and the keys. */
  lemma KeysOfRanges(buffer: seq<Byte>, table: nat, items: seq<Item<Entry>>)
    requires MapAt(buffer, table, items)
    ensures Readable(buffer, table) && AllKeys(buffer, table) == Highs(items) && Ascending(Highs(items))
  {
    KeysAreRead(buffer, table, Highs(items), RangeRecords(items));
  }

  /** What was written always passes the check of StaticMap. */
  lemma WrittenRangesAreInOrder(buffer: seq<Byte>, table: nat, items: seq<Item<Entry>>)
    requires MapAt(buffer, table, items)
    ensures Readable(buffer, table) && InOrder(buffer, table)
  {
    WrittenTableIsInOrder(buffer, table, Highs(items), RangeRecords(items));
  }

  /** A reader that follows count, offsets and keys finds each range with its base and its entry. */
  lemma RangeIsRead(buffer: seq<Byte>, table: nat, items: seq<Item<Entry>>, k: nat)
    requires MapAt(buffer, table, items) && k < |items|
    ensures table + 8 + 4 * k <= |buffer| && table + 12 + 4 * |items| + 8 * k <= |buffer|
    ensures HasRange(buffer, table + OffsetIn(buffer, table, k), KeyIn(buffer, table, |items|, k), items[k])
  {
    OffsetPointsAtRecord(buffer, table, AsBytes(Highs(items)), RangeRecords(items), k);
    KeyIsRead(buffer, table, Highs(items), RangeRecords(items), k);
    RecordIsRead(buffer, table + OffsetIn(buffer, table, k), items[k]);
  }

  lemma RecordIsRead(buffer: seq<Byte>, at: nat, x: Item<Entry>)
    requires 0 <= x.base < ADDRESS_LIMIT && Holds(buffer, at, RangeRecord(x))
    ensures at + 8 <= |buffer| && Number(buffer[at..at + 8]) == x.base && Holds(buffer, at + 8, x.entry)
  {
    HoldsParts(buffer, at, Little(x.base, 8), x.entry);
    Limits();
    ReadsLittle(buffer, at, x.base, 8);
  }

  /** A range with its key and its record, whose size is one. */
  ghost predicate HasRange(buffer: seq<Byte>, at: nat, key: nat, x: Item<Entry>) {
    && at + 8 <= |buffer| && Number(buffer[at..at + 8]) == x.base && Holds(buffer, at + 8, x.entry)
    && key == x.high && 0 <= x.base <= x.high < ADDRESS_LIMIT && x.high - x.base + 1 < ADDRESS_LIMIT
  }

  /** Looking an address up in the bytes answers as the map does: `entry` is where the entry's bytes are. */
  method RetrieveFromBytes(buffer: seq<Byte>, table: nat, address: Address, ghost items: seq<Item<Entry>>)
    returns (found: bool, entry: nat, base: Address, size: Address)
    requires MapAt(buffer, table, items)
    ensures found <==> RangeMaps.RetrieveRange(items, address).Some?
    ensures found ==> && var x := RangeMaps.RetrieveRange(items, address).value;
                      base == x.base && base + size - 1 == x.high && Holds(buffer, entry, x.entry)
  {
    KeysOfRanges(buffer, table, items);
    found, entry, base, size := false, 0, 0, 0;
    var i := FindLowerBound(buffer, table, address);
    if i == Count(buffer, table) { return; }
    RangeIsRead(buffer, table, items, i);
    found, entry, base, size :=
      ReadRange(buffer, table + OffsetIn(buffer, table, i), KeyAt(buffer, table, i), address, items[i]);
  }

  /** The part of the lookup after the range that may have the address is found. */
  method ReadRange(buffer: seq<Byte>, range: nat, high: nat, address: Address, ghost x: Item<Entry>)
    returns (found: bool, entry: nat, base: Address, size: Address)
    requires HasRange(buffer, range, high, x)
    ensures found <==> x.base <= address
    ensures found ==> base == x.base && base + size - 1 == x.high && Holds(buffer, entry, x.entry)
  {
    base := Number(buffer[range..range + 8]);
    if address < base { return false, 0, 0, 0; }
    entry := range + 8;
    size := Add(Sub(high, base), 1);
    found := true;
  }
}
