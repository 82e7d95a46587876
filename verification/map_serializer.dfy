/** The serializers of std::map, RangeMap and ContainedRangeMap. Keys, values and entries that have serializers of
    their own are given as the bytes those write. */
module MapSerializer {
  import opened Addresses
  import opened Bytes
  import opened OffsetTable
  import opened Options
  import opened RangeTree

  type Entry = seq<Byte>

  /** The body of each serializer's loop, for a record that is at hand: an offset, a key and the record. */
  method WriteRecord(i: nat, keyBytes: seq<Byte>, record: seq<Byte>, buffer: array<Byte>, table: nat, key: nat, start: nat)
    returns (key': nat, dest: nat, ghost b1: seq<Byte>, ghost b2: seq<Byte>)
    requires table + 4 + 4 * i + 4 <= key && key + |keyBytes| <= start && start + |record| <= buffer.Length
    modifies buffer
    ensures key' == key + |keyBytes| && dest == start + |record|
    ensures WroteEntry(i, table, key, start, keyBytes, record, old(buffer[..]), b1, b2, buffer[..])
  {
    PutLittle(buffer, table + 4 + 4 * i, start - table, 4);
    b1 := buffer[..];
    PutBytes(buffer, key, keyBytes);
    b2 := buffer[..];
    PutBytes(buffer, start, record);
    key', dest := key + |keyBytes|, start + |record|;
  }

  // ---- std::map

  ghost predicate SameWidth(keys: seq<seq<Byte>>, width: nat) {
    forall k | 0 <= k < |keys| :: |keys[k]| == width
  }

  method SizeOfMap(keys: seq<seq<Byte>>, values: seq<seq<Byte>>) returns (size: nat)
    requires |keys| == |values|
    ensures size == |Table(keys, values)|
  {
    size := (1 + |keys|) * 4;
    for i := 0 to |keys|
      invariant size == 4 + 4 * |keys| + |Join(keys[..i])| + |Join(values[..i])|
    {
      JoinPrefix(keys, i);
      JoinPrefix(values, i);
      size := size + |keys[i]| + |values[i]|;
    }
    assert keys[..|keys|] == keys && values[..|keys|] == values;
    TableSize(keys, values);
  }

  method WriteMap(keys: seq<seq<Byte>>, values: seq<seq<Byte>>, width: nat, buffer: array<Byte>, start: nat)
    returns (dest: nat)
    requires |keys| == |values| && SameWidth(keys, width) && start + |Table(keys, values)| <= buffer.Length
    modifies buffer
    ensures dest == start + |Table(keys, values)| && Wrote(old(buffer[..]), buffer[..], start, Table(keys, values))
  {
    TableSize(keys, values);
    JoinSize(keys, width);
    PutLittle(buffer, start, |values|, 4);
    Started(old(buffer[..]), buffer[..], start, keys, values);
    dest := start + 4 + 4 * |values|;
    var key := dest;
    dest := dest + width * |keys|;
    for i := 0 to |keys|
      invariant Underway(old(buffer[..]), buffer[..], start, keys, values, i, key, dest)
    {
      RoomForEntry(start, key, dest, keys, values, i);
      ghost var b, k, d := buffer[..], key, dest;
      ghost var b1, b2;
      key, dest, b1, b2 := WriteRecord(i, keys[i], values[i], buffer, start, key, dest);
      NextEntry(old(buffer[..]), start, keys, values, i, k, d, b, b1, b2, buffer[..]);
    }
    AllWritten(old(buffer[..]), buffer[..], start, keys, values, key, dest);
  }

  // ---- ContainedRangeMap

  /** The addresses fit their eight bytes. */
  ghost predicate Storable(t: Tree<Entry>) {
    && 0 <= t.base < ADDRESS_LIMIT && 0 <= t.high < ADDRESS_LIMIT
    && forall i | 0 <= i < |t.kids| :: Storable(t.kids[i])
  }

  ghost predicate AllStorable(kids: seq<Tree<Entry>>) {
    forall i | 0 <= i < |kids| :: Storable(kids[i])
  }

  function KeyBytes(kids: seq<Tree<Entry>>): (keys: seq<seq<Byte>>)
    ensures |keys| == |kids| && forall i | 0 <= i < |kids| :: keys[i] == Little(kids[i].high, 8)
  {
    AsBytes(Keys(kids))
  }

  /** A node: its base, the size of its entry, its entry, and the table of its children. */
  function Encode(t: Tree<Entry>): (bs: seq<Byte>)
    decreases t
  {
    Little(t.base, 8) + (Little(|t.entry|, 4) + (t.entry + ChildTable(t.kids)))
  }

  function ChildTable(kids: seq<Tree<Entry>>): seq<Byte>
    decreases kids, 1
  {
    Table(KeyBytes(kids), Records(kids))
  }

  function Records(kids: seq<Tree<Entry>>): (records: seq<seq<Byte>>)
    ensures |records| == |kids|
    decreases kids, 0
  {
    if kids == [] then [] else Records(kids[..|kids| - 1]) + [Encode(kids[|kids| - 1])]
  }

  lemma {:induction false} RecordIs(kids: seq<Tree<Entry>>, i: nat)
    requires i < |kids|
    ensures Records(kids)[i] == Encode(kids[i])
  {
    if i < |kids| - 1 { RecordIs(kids[..|kids| - 1], i); }
  }

  lemma NodeParts(buffer: seq<Byte>, at: nat, t: Tree<Entry>)
    ensures Holds(buffer, at, Encode(t)) <==>
            && Holds(buffer, at, Little(t.base, 8))
            && Holds(buffer, at + 8, Little(|t.entry|, 4))
            && Holds(buffer, at + 12, t.entry)
            && Holds(buffer, at + 12 + |t.entry|, ChildTable(t.kids))
  {
    HoldsFourParts(buffer, at, Little(t.base, 8), Little(|t.entry|, 4), t.entry, ChildTable(t.kids));
  }

  lemma NodeSize(t: Tree<Entry>)
    ensures |Encode(t)| == 12 + |t.entry| + |ChildTable(t.kids)|
    ensures First(KeyBytes(t.kids), |t.kids|) == 4 + 12 * |t.kids|
  {
    JoinSize(KeyBytes(t.kids), 8);
  }

  method SizeOf(t: Tree<Entry>) returns (size: nat)
    ensures size == |Encode(t)|
  {
    size := 8 + |t.entry| + 4;
    size := size + 4;
    size := size + |t.kids| * 4;
    ghost var records := Records(t.kids);
    for i := 0 to |t.kids|
      invariant size == 16 + |t.entry| + 4 * |t.kids| + 8 * i + |Join(records[..i])|
    {
      size := size + 8;
      var inner := SizeOf(t.kids[i]);
      size := size + inner;
      JoinPrefix(records, i);
      RecordIs(t.kids, i);
    }
    assert records[..|t.kids|] == records;
    NodeSize(t);
    TableSize(KeyBytes(t.kids), records);
  }

  method Write(t: Tree<Entry>, buffer: array<Byte>, start: nat) returns (dest: nat)
    requires start + |Encode(t)| <= buffer.Length
    modifies buffer
    ensures dest == start + |Encode(t)| && Wrote(old(buffer[..]), buffer[..], start, Encode(t))
    decreases t, 0
  {
    NodeSize(t);
    dest := WriteHeader(t, buffer, start);
    ghost var b, table := buffer[..], dest;
    dest := WriteChildren(t.kids, buffer, dest);
    HoldsStays(b, buffer[..], table, dest, start, Little(t.base, 8));
    HoldsStays(b, buffer[..], table, dest, start + 8, Little(|t.entry|, 4));
    HoldsStays(b, buffer[..], table, dest, start + 12, t.entry);
    NodeParts(buffer[..], start, t);
  }

  method WriteHeader(t: Tree<Entry>, buffer: array<Byte>, start: nat) returns (dest: nat)
    requires start + 12 + |t.entry| <= buffer.Length
    modifies buffer
    ensures dest == start + 12 + |t.entry|
    ensures Holds(buffer[..], start, Little(t.base, 8))
    ensures Holds(buffer[..], start + 8, Little(|t.entry|, 4))
    ensures Holds(buffer[..], start + 12, t.entry)
    ensures OnlyWritten(old(buffer[..]), buffer[..], start, dest)
  {
    PutLittle(buffer, start, t.base, 8);
    ghost var one := buffer[..];
    PutLittle(buffer, start + 8, |t.entry|, 4);
    ghost var two := buffer[..];
    dest := start + 12;
    PutBytes(buffer, dest, t.entry);
    dest := dest + |t.entry|;
    HoldsStays(one, two, start + 8, start + 12, start, Little(t.base, 8));
    HoldsStays(two, buffer[..], start + 12, dest, start, Little(t.base, 8));
    HoldsStays(two, buffer[..], start + 12, dest, start + 8, Little(|t.entry|, 4));
  }

  /** The part of Write after the entry. */
  method WriteChildren(kids: seq<Tree<Entry>>, buffer: array<Byte>, table: nat) returns (dest: nat)
    requires table + |ChildTable(kids)| <= buffer.Length
    modifies buffer
    ensures dest == table + |ChildTable(kids)|
    ensures Wrote(old(buffer[..]), buffer[..], table, ChildTable(kids))
    decreases kids, 0
  {
    ghost var keys, records := KeyBytes(kids), Records(kids);
    TableSize(keys, records);
    JoinSize(keys, 8);
    PutLittle(buffer, table, |kids|, 4);
    Started(old(buffer[..]), buffer[..], table, keys, records);
    dest := table + 4 + 4 * |kids|;
    var key := dest;
    dest := dest + 8 * |kids|;
    for i := 0 to |kids|
      invariant Underway(old(buffer[..]), buffer[..], table, keys, records, i, key, dest)
    {
      RoomForEntry(table, key, dest, keys, records, i);
      RecordIs(kids, i);
      ghost var b, k, d := buffer[..], key, dest;
      ghost var b1, b2;
      key, dest, b1, b2 := WriteChild(kids[i], i, buffer, table, key, dest);
      NextEntry(old(buffer[..]), table, keys, records, i, k, d, b, b1, b2, buffer[..]);
    }
    AllWritten(old(buffer[..]), buffer[..], table, keys, records, key, dest);
  }

  /** The body of the loop over the children. */
  method WriteChild(t: Tree<Entry>, i: nat, buffer: array<Byte>, table: nat, key: nat, start: nat)
    returns (key': nat, dest: nat, ghost b1: seq<Byte>, ghost b2: seq<Byte>)
    requires table + 4 + 4 * i + 4 <= key && key + 8 <= start && start + |Encode(t)| <= buffer.Length
    modifies buffer
    ensures key' == key + 8 && dest == start + |Encode(t)|
    ensures WroteEntry(i, table, key, start, Little(t.high, 8), Encode(t), old(buffer[..]), b1, b2, buffer[..])
    decreases t, 1
  {
    PutLittle(buffer, table + 4 + 4 * i, start - table, 4);
    b1 := buffer[..];
    PutLittle(buffer, key, t.high, 8);
    b2 := buffer[..];
    key' := key + 8;
    dest := Write(t, buffer, start);
  }

  // ---- A reader that follows count, offsets and keys

  function DecodeNode(buffer: seq<Byte>, at: nat, high: int): Option<Tree<Entry>>
    decreases |buffer| - at, 0
  {
    if at + 12 > |buffer| then None
    else
      var table := at + 12 + Number(buffer[at + 8..at + 12]);
      if table + 4 > |buffer| then None
      else
        var n := Number(buffer[table..table + 4]);
        if table + 4 + 12 * n > |buffer| then None
        else
          match DecodeKids(buffer, table, n, n)
          case None => None
          case Some(kids) => Some(Tree(high, Number(buffer[at..at + 8]), buffer[at + 12..table], kids))
  }

  /** The first `i` of the `n` children in the table at `table`. */
  function DecodeKids(buffer: seq<Byte>, table: nat, n: nat, i: nat): Option<seq<Tree<Entry>>>
    requires table + 4 + 12 * n <= |buffer| && i <= n
    decreases |buffer| - table, i
  {
    if i == 0 then Some([])
    else
      var at := table + OffsetIn(buffer, table, i - 1);
      if at > |buffer| then None
      else
        match DecodeKids(buffer, table, n, i - 1)
        case None => None
        case Some(before) =>
          match DecodeNode(buffer, at, KeyIn(buffer, table, n, i - 1))
          case None => None
          case Some(t) => Some(before + [t])
  }

  /** What a reader finds at a node: its fields, and a table it can follow. */
  ghost predicate ReadsNode(buffer: seq<Byte>, at: nat, t: Tree<Entry>) {
    var table := at + 12 + |t.entry|;
    && table + 4 + 12 * |t.kids| <= |buffer|
    && Number(buffer[at..at + 8]) == t.base && Number(buffer[at + 8..at + 12]) == |t.entry|
    && buffer[at + 12..table] == t.entry && Number(buffer[table..table + 4]) == |t.kids|
  }

  /** Child `k` is where its offset points, and its key is its high address. */
  ghost predicate ReadsChild(buffer: seq<Byte>, table: nat, kids: seq<Tree<Entry>>, k: nat)
    requires k < |kids| && table + 4 + 12 * |kids| <= |buffer|
  {
    && table + OffsetIn(buffer, table, k) <= |buffer|
    && Holds(buffer, table + OffsetIn(buffer, table, k), Encode(kids[k]))
    && |Encode(kids[k])| < 0x1_0000_0000
    && KeyIn(buffer, table, |kids|, k) == kids[k].high
  }

  /** The parts of a node are there, one behind the other. */
  ghost predicate HasParts(buffer: seq<Byte>, at: nat, t: Tree<Entry>, table: nat) {
    && 0 <= t.base < ADDRESS_LIMIT && |t.entry| < 0x1_0000_0000 && |ChildTable(t.kids)| < 0x1_0000_0000
    && Holds(buffer, at, Little(t.base, 8)) && Holds(buffer, at + 8, Little(|t.entry|, 4))
    && table == at + 12 + |t.entry| && Holds(buffer, at + 12, t.entry) && Holds(buffer, table, ChildTable(t.kids))
    && table + 4 + 12 * |t.kids| <= |buffer|
  }

  lemma PartsAreThere(buffer: seq<Byte>, at: nat, t: Tree<Entry>)
    requires 0 <= t.base < ADDRESS_LIMIT && |Encode(t)| < 0x1_0000_0000 && Holds(buffer, at, Encode(t))
    ensures HasParts(buffer, at, t, at + 12 + |t.entry|)
  {
    NodeParts(buffer, at, t);
    NodeSize(t);
    TableSize(KeyBytes(t.kids), Records(t.kids));
  }

  lemma PartsAreRead(buffer: seq<Byte>, at: nat, t: Tree<Entry>, table: nat)
    requires HasParts(buffer, at, t, table)
    ensures ReadsNode(buffer, at, t)
  {
    HeaderIsRead(buffer, at, t.base, t.entry);
    CountOfChildren(buffer, table, t.kids);
  }

  lemma NodeIsRead(buffer: seq<Byte>, at: nat, t: Tree<Entry>)
    requires 0 <= t.base < ADDRESS_LIMIT && |Encode(t)| < 0x1_0000_0000 && Holds(buffer, at, Encode(t))
    ensures ReadsNode(buffer, at, t)
    ensures HasParts(buffer, at, t, at + 12 + |t.entry|)
  {
    PartsAreThere(buffer, at, t);
    PartsAreRead(buffer, at, t, at + 12 + |t.entry|);
  }

  lemma HeaderIsRead(buffer: seq<Byte>, at: nat, base: int, entry: Entry)
    requires 0 <= base < ADDRESS_LIMIT && |entry| < 0x1_0000_0000
    requires Holds(buffer, at, Little(base, 8)) && Holds(buffer, at + 8, Little(|entry|, 4))
    requires Holds(buffer, at + 12, entry)
    ensures at + 12 + |entry| <= |buffer| && buffer[at + 12..at + 12 + |entry|] == entry
    ensures Number(buffer[at..at + 8]) == base && Number(buffer[at + 8..at + 12]) == |entry|
  {
    Limits();
    ReadsLittle(buffer, at, base, 8);
    ReadsLittle(buffer, at + 8, |entry|, 4);
  }

  lemma CountOfChildren(buffer: seq<Byte>, table: nat, kids: seq<Tree<Entry>>)
    requires |ChildTable(kids)| < 0x1_0000_0000 && Holds(buffer, table, ChildTable(kids))
    ensures table + 4 + 12 * |kids| <= |buffer| && Number(buffer[table..table + 4]) == |kids|
  {
    JoinSize(KeyBytes(kids), 8);
    CountIsRead(buffer, table, KeyBytes(kids), Records(kids));
  }

  lemma ChildIsRead(buffer: seq<Byte>, table: nat, kids: seq<Tree<Entry>>, k: nat)
    requires k < |kids| && 0 <= kids[k].high < ADDRESS_LIMIT && table + 4 + 12 * |kids| <= |buffer|
    requires |ChildTable(kids)| < 0x1_0000_0000
    requires Holds(buffer, table, ChildTable(kids))
    ensures ReadsChild(buffer, table, kids, k)
  {
    var keys, records := KeyBytes(kids), Records(kids);
    OffsetPointsAtRecord(buffer, table, keys, records, k);
    KeyIsAtItsPlace(buffer, table, keys, records, 8, k);
    Limits();
    ReadsLittle(buffer, table + 4 + 4 * |kids| + 8 * k, kids[k].high, 8);
    TableSize(keys, records);
    JoinPrefix(records, k);
    RecordIs(kids, k);
  }

  /** A reader that follows the offsets in what was written gets the same tree back. */
  lemma {:induction false} DecodeEncode(buffer: seq<Byte>, at: nat, t: Tree<Entry>)
    requires Storable(t) && |Encode(t)| < 0x1_0000_0000 && Holds(buffer, at, Encode(t))
    ensures DecodeNode(buffer, at, t.high) == Some(t)
    decreases t, 1
  {
    PartsAreThere(buffer, at, t);
    DecodeParts(buffer, at, t, at + 12 + |t.entry|);
  }

  lemma {:induction false} DecodeParts(buffer: seq<Byte>, at: nat, t: Tree<Entry>, table: nat)
    requires AllStorable(t.kids) && HasParts(buffer, at, t, table)
    ensures DecodeNode(buffer, at, t.high) == Some(t)
    decreases t, 0
  {
    DecodeTable(buffer, table, t.kids);
    PartsAreRead(buffer, at, t, table);
    DecodeNodeIs(buffer, at, t, table);
  }

  lemma {:induction false} DecodeTable(buffer: seq<Byte>, table: nat, kids: seq<Tree<Entry>>)
    requires AllStorable(kids) && table + 4 + 12 * |kids| <= |buffer|
    requires |ChildTable(kids)| < 0x1_0000_0000 && Holds(buffer, table, ChildTable(kids))
    ensures DecodeKids(buffer, table, |kids|, |kids|) == Some(kids)
    decreases kids, 2
  {
    DecodeAllKids(buffer, table, kids, |kids|);
    assert kids[..|kids|] == kids;
  }

  lemma DecodeNodeIs(buffer: seq<Byte>, at: nat, t: Tree<Entry>, table: nat)
    requires ReadsNode(buffer, at, t) && table == at + 12 + |t.entry|
    requires DecodeKids(buffer, table, |t.kids|, |t.kids|) == Some(t.kids)
    ensures DecodeNode(buffer, at, t.high) == Some(t)
  {
  }

  lemma {:induction false} DecodeAllKids(buffer: seq<Byte>, table: nat, kids: seq<Tree<Entry>>, i: nat)
    requires AllStorable(kids) && i <= |kids| && table + 4 + 12 * |kids| <= |buffer|
    requires |ChildTable(kids)| < 0x1_0000_0000
    requires Holds(buffer, table, ChildTable(kids))
    ensures DecodeKids(buffer, table, |kids|, i) == Some(kids[..i])
    decreases kids, 1, i
  {
    if i > 0 {
      DecodeAllKids(buffer, table, kids, i - 1);
      DecodeChild(buffer, table, kids, i - 1);
      DecodeKidsNext(buffer, table, kids, i);
    }
  }

  lemma {:induction false} DecodeChild(buffer: seq<Byte>, table: nat, kids: seq<Tree<Entry>>, k: nat)
    requires k < |kids| && AllStorable(kids) && table + 4 + 12 * |kids| <= |buffer|
    requires |ChildTable(kids)| < 0x1_0000_0000 && Holds(buffer, table, ChildTable(kids))
    ensures table + OffsetIn(buffer, table, k) <= |buffer|
    ensures DecodeNode(buffer, table + OffsetIn(buffer, table, k), KeyIn(buffer, table, |kids|, k)) == Some(kids[k])
    decreases kids, 0
  {
    assert Storable(kids[k]);
    ChildIsRead(buffer, table, kids, k);
    DecodeEncode(buffer, table + OffsetIn(buffer, table, k), kids[k]);
  }

  lemma DecodeKidsNext(buffer: seq<Byte>, table: nat, kids: seq<Tree<Entry>>, i: nat)
    requires table + 4 + 12 * |kids| <= |buffer| && 0 < i <= |kids|
    requires DecodeKids(buffer, table, |kids|, i - 1) == Some(kids[..i - 1])
    requires table + OffsetIn(buffer, table, i - 1) <= |buffer|
    requires DecodeNode(buffer, table + OffsetIn(buffer, table, i - 1), KeyIn(buffer, table, |kids|, i - 1)) == Some(kids[i - 1])
    ensures DecodeKids(buffer, table, |kids|, i) == Some(kids[..i])
  {
    assert kids[..i] == kids[..i - 1] + [kids[i - 1]];
  }
}
