/** StaticMap and StaticContainedRangeMap: lookups straight in the bytes that a serializer wrote. A map's raw data
    starts at position `table` of `buffer`; keys take eight bytes. */
module StaticMap {
  import opened Addresses
  import opened Bytes
  import opened MapSerializer
  import opened OffsetTable
  import opened Options
  import opened RangeTree

  /** The count, and all the offsets and keys it announces, can be read. */
  predicate Readable(buffer: seq<Byte>, table: nat) {
    table + 4 <= |buffer| && table + 4 + 12 * Number(buffer[table..table + 4]) <= |buffer|
  }

  function Count(buffer: seq<Byte>, table: nat): nat
    requires Readable(buffer, table)
  {
    Number(buffer[table..table + 4])
  }

  function KeyAt(buffer: seq<Byte>, table: nat, k: nat): nat
    requires Readable(buffer, table) && k < Count(buffer, table)
  {
    KeyIn(buffer, table, Count(buffer, table), k)
  }

  ghost function AllKeys(buffer: seq<Byte>, table: nat): (keys: seq<int>)
    requires Readable(buffer, table)
    ensures |keys| == Count(buffer, table) && forall k | 0 <= k < |keys| :: keys[k] == KeyAt(buffer, table, k)
  {
    seq(Count(buffer, table), k requires 0 <= k < Count(buffer, table) => KeyAt(buffer, table, k))
  }

  ghost predicate Ascending(keys: seq<int>) {
    forall i, j | 0 <= i < j < |keys| :: keys[i] < keys[j]
  }

  lemma {:induction false} LowerBoundIs(keys: seq<int>, x: int, at: nat)
    requires at <= |keys| && Ascending(keys)
    requires forall i | 0 <= i < at :: keys[i] < x
    requires at < |keys| ==> x <= keys[at]
    ensures LowerBound(keys, x) == at
  {
  }

  /** The binary search finds what a search from the start would. */
  method FindLowerBound(buffer: seq<Byte>, table: nat, key: int) returns (at: nat)
    requires Readable(buffer, table) && Ascending(AllKeys(buffer, table))
    ensures at == LowerBound(AllKeys(buffer, table), key)
  {
    ghost var keys := AllKeys(buffer, table);
    var begin, end := 0, Count(buffer, table);
    while begin < end
      invariant 0 <= begin <= end <= |keys|
      invariant forall i | 0 <= i < begin :: keys[i] < key
      invariant end < |keys| ==> key <= keys[end]
    {
      var middle := begin + (end - begin) / 2;
      var there := KeyAt(buffer, table, middle);
      if key == there {
        LowerBoundIs(keys, key, middle);
        return middle;
      }
      if key < there {
        end := middle;
      } else {
        begin := middle + 1;
      }
    }
    LowerBoundIs(keys, key, begin);
    return begin;
  }

  // ---- ValidateInMemoryStructure

  /** Keys and offsets ascend, and the first record follows the keys. */
  ghost predicate InOrder(buffer: seq<Byte>, table: nat)
    requires Readable(buffer, table)
  {
    var n := Count(buffer, table);
    && n < 0x8000_0000
    && (n > 0 ==> OffsetIn(buffer, table, 0) == 4 + 12 * n)
    && (forall i, j | 0 <= i < j < n :: OffsetIn(buffer, table, i) < OffsetIn(buffer, table, j))
    && Ascending(AllKeys(buffer, table))
  }

  method ValidateInMemoryStructure(buffer: seq<Byte>, table: nat) returns (ok: bool)
    requires Readable(buffer, table)
    ensures ok <==> InOrder(buffer, table)
  {
    var n := Count(buffer, table);
    if n >= 0x8000_0000 { return false; }  // negative as a signed number
    if n > 0 {
      var first := 4 * (n + 1) + 8 * n;
      if first > 0xffff_ffff {
        NumberFits(buffer[table + 4..table + 8]);
        Limits();
        return false;
      }
      if OffsetIn(buffer, table, 0) != first { return false; }
    }
    ghost var keys := AllKeys(buffer, table);
    var i := 1;
    while i < n
      invariant 1 <= i
      invariant forall j, k | 0 <= j < k < i && k < n :: OffsetIn(buffer, table, j) < OffsetIn(buffer, table, k)
      invariant forall j, k | 0 <= j < k < i && k < n :: keys[j] < keys[k]
    {
      if OffsetIn(buffer, table, i) <= OffsetIn(buffer, table, i - 1) { return false; }
      if KeyAt(buffer, table, i) <= KeyAt(buffer, table, i - 1) { return false; }
      i := i + 1;
    }
    return true;
  }

  // ---- What a serializer wrote

  lemma JoinGrows(parts: seq<seq<Byte>>, i: nat, j: nat)
    requires i < j <= |parts| && forall k | i <= k < j :: |parts[k]| > 0
    ensures |Join(parts[..i])| < |Join(parts[..j])|
    decreases j - i
  {
    JoinPrefix(parts, i);
    if i + 1 < j { JoinGrows(parts, i + 1, j); }
  }

  lemma KeyIsRead(buffer: seq<Byte>, table: nat, keys: seq<int>, records: seq<seq<Byte>>, k: nat)
    requires k < |records| == |keys| && AllAddresses(keys)
    requires |Table(AsBytes(keys), records)| < 0x1_0000_0000 && Holds(buffer, table, Table(AsBytes(keys), records))
    ensures table + 12 + 4 * |keys| + 8 * k <= |buffer| && KeyIn(buffer, table, |keys|, k) == keys[k]
  {
    KeyIsAtItsPlace(buffer, table, AsBytes(keys), records, 8, k);
    Limits();
    ReadsLittle(buffer, table + 4 + 4 * |keys| + 8 * k, keys[k], 8);
  }

  ghost predicate AllAddresses(keys: seq<int>) {
    forall k | 0 <= k < |keys| :: 0 <= keys[k] < ADDRESS_LIMIT
  }

  /** A table that was written, with addresses for keys, is read back key by key. */
  lemma KeysAreRead(buffer: seq<Byte>, table: nat, keys: seq<int>, records: seq<seq<Byte>>)
    requires |records| == |keys| && AllAddresses(keys)
    requires |Table(AsBytes(keys), records)| < 0x1_0000_0000 && Holds(buffer, table, Table(AsBytes(keys), records))
    ensures Readable(buffer, table) && AllKeys(buffer, table) == keys
  {
    CountIsRead(buffer, table, AsBytes(keys), records);
    JoinSize(AsBytes(keys), 8);
    forall k | 0 <= k < |keys| ensures AllKeys(buffer, table)[k] == keys[k] {
      KeyIsRead(buffer, table, keys, records, k);
    }
  }

  /** What a serializer writes passes the check, unless a record before the last is empty or keys do not ascend. */
  lemma WrittenTableIsInOrder(buffer: seq<Byte>, table: nat, keys: seq<int>, records: seq<seq<Byte>>)
    requires |records| == |keys| && AllAddresses(keys)
    requires |Table(AsBytes(keys), records)| < 0x1_0000_0000 && Holds(buffer, table, Table(AsBytes(keys), records))
    ensures Readable(buffer, table)
    ensures InOrder(buffer, table) <==> Ascending(keys) && forall k | 0 <= k < |records| - 1 :: |records[k]| > 0
  {
    KeysAreRead(buffer, table, keys, records);
    var n := |keys|;
    JoinSize(AsBytes(keys), 8);
    TableSize(AsBytes(keys), records);
    forall k | 0 <= k < n ensures OffsetIn(buffer, table, k) == 4 + 12 * n + |Join(records[..k])| {
      OffsetPointsAtRecord(buffer, table, AsBytes(keys), records, k);
    }
    if forall k | 0 <= k < n - 1 :: |records[k]| > 0 {
      forall i, j | 0 <= i < j < n ensures OffsetIn(buffer, table, i) < OffsetIn(buffer, table, j) {
        JoinGrows(records, i, j);
      }
    } else {
      var k :| 0 <= k < n - 1 && |records[k]| == 0;
      JoinPrefix(records, k);
      assert OffsetIn(buffer, table, k) == OffsetIn(buffer, table, k + 1);
    }
  }

  // ---- StaticContainedRangeMap

  /** A node whose bytes are all there, below `lo..hi` in a map that was built by storing ranges. */
  ghost predicate NodeAt(buffer: seq<Byte>, at: nat, t: Tree<Entry>) {
    Storable(t) && |Encode(t)| < 0x1_0000_0000 && Holds(buffer, at, Encode(t))
  }

  lemma SortedKeys(kids: seq<Tree<Entry>>, lo: int, hi: int)
    requires WellFormed(kids, lo, hi)
    ensures Ascending(Keys(kids))
  {
    assert forall i | 0 <= i < |kids| :: Nested(kids[i], lo, hi);
  }

  lemma KeysOfNode(buffer: seq<Byte>, at: nat, t: Tree<Entry>)
    requires NodeAt(buffer, at, t)
    ensures ReadsNode(buffer, at, t)
    ensures Readable(buffer, at + 12 + |t.entry|) && AllKeys(buffer, at + 12 + |t.entry|) == Keys(t.kids)
    ensures forall k | 0 <= k < |t.kids| ::
              OffsetIn(buffer, at + 12 + |t.entry|, k) + at + 12 + |t.entry| <= |buffer|
              && NodeAt(buffer, OffsetIn(buffer, at + 12 + |t.entry|, k) + at + 12 + |t.entry|, t.kids[k])
  {
    hide Number, Holds, Encode;
    var table := at + 12 + |t.entry|;
    NodeIsRead(buffer, at, t);
    AllStorableKeys(t);
    KeysAreRead(buffer, table, Keys(t.kids), Records(t.kids));
    forall k | 0 <= k < |t.kids|
      ensures OffsetIn(buffer, table, k) + table <= |buffer| && NodeAt(buffer, OffsetIn(buffer, table, k) + table, t.kids[k])
    {
      ChildAt(buffer, table, t.kids, k);
    }
  }

  lemma ChildAt(buffer: seq<Byte>, table: nat, kids: seq<Tree<Entry>>, k: nat)
    requires k < |kids| && AllStorable(kids) && table + 4 + 12 * |kids| <= |buffer|
    requires |ChildTable(kids)| < 0x1_0000_0000 && Holds(buffer, table, ChildTable(kids))
    ensures OffsetIn(buffer, table, k) + table <= |buffer|
    ensures NodeAt(buffer, OffsetIn(buffer, table, k) + table, kids[k])
  {
    assert Storable(kids[k]);
    ChildIsRead(buffer, table, kids, k);
  }

  /** The table of a node that was written always passes the check. */
  lemma WrittenNodeIsInOrder(buffer: seq<Byte>, at: nat, t: Tree<Entry>, lo: int, hi: int)
    requires NodeAt(buffer, at, t) && WellFormed(t.kids, lo, hi)
    ensures Readable(buffer, at + 12 + |t.entry|) && InOrder(buffer, at + 12 + |t.entry|)
  {
    NodeIsRead(buffer, at, t);
    SortedKeys(t.kids, lo, hi);
    AllStorableKeys(t);
    forall k | 0 <= k < |t.kids| - 1 ensures |Records(t.kids)[k]| > 0 {
      RecordIs(t.kids, k);
      NodeSize(t.kids[k]);
    }
    WrittenTableIsInOrder(buffer, at + 12 + |t.entry|, Keys(t.kids), Records(t.kids));
  }

  lemma AllStorableKeys(t: Tree<Entry>)
    requires Storable(t)
    ensures AllAddresses(Keys(t.kids))
  {
    forall k | 0 <= k < |t.kids| ensures 0 <= Keys(t.kids)[k] < ADDRESS_LIMIT {
      assert Storable(t.kids[k]);
    }
  }

  /** The child in whose range the address may lie. */
  method FindChild(buffer: seq<Byte>, at: nat, address: Address, ghost t: Tree<Entry>, ghost lo: int, ghost hi: int)
    returns (found: bool, child: nat, ghost i: nat)
    requires NodeAt(buffer, at, t) && WellFormed(t.kids, lo, hi)
    ensures i == LowerBound(Keys(t.kids), address)
    ensures found <==> i < |t.kids| && t.kids[i].base <= address
    ensures found ==> NodeAt(buffer, child, t.kids[i])
  {
    KeysOfNode(buffer, at, t);
    SortedKeys(t.kids, lo, hi);
    var table := at + 12 + Number(buffer[at + 8..at + 12]);
    var k := FindLowerBound(buffer, table, address);
    i := k;
    if k == Count(buffer, table) { return false, 0, i; }
    child := OffsetIn(buffer, table, k) + table;
    NodeIsRead(buffer, child, t.kids[k]);
    found := Number(buffer[child..child + 8]) <= address;
  }

  lemma EntryIsRead(buffer: seq<Byte>, at: nat, t: Tree<Entry>)
    requires NodeAt(buffer, at, t)
    ensures at + 12 + |t.entry| <= |buffer| && Number(buffer[at + 8..at + 12]) == |t.entry|
    ensures buffer[at + 12..at + 12 + |t.entry|] == t.entry
  {
    NodeIsRead(buffer, at, t);
  }

  /** Following offsets and keys in the bytes of a map gives the answer that the map gives. An entry of no bytes is
      handed out as a null pointer. */
  method RetrieveRange(buffer: seq<Byte>, at: nat, address: Address, ghost t: Tree<Entry>, ghost lo: int, ghost hi: int)
    returns (found: bool, entry: Entry)
    requires NodeAt(buffer, at, t) && WellFormed(t.kids, lo, hi)
    ensures found == Retrieve(t.kids, address).Some?
    ensures found ==> entry == Retrieve(t.kids, address).value.entry
    decreases t
  {
    ghost var i;
    var child;
    entry := [];
    found, child, i := FindChild(buffer, at, address, t, lo, hi);
    if !found { return; }
    found, entry := RetrieveRange(buffer, child, address, t.kids[i], t.kids[i].base, t.kids[i].high);
    if !found {
      EntryIsRead(buffer, child, t.kids[i]);
      entry := buffer[child + 12..child + 12 + Number(buffer[child + 8..child + 12])];
    }
    found := true;
  }

  // ---- From StoreRange to the answer

  lemma {:induction false} StoredIsStorable(kids: seq<Tree<Entry>>, lo: int, hi: int)
    requires WellFormed(kids, lo, hi)
    requires forall x: Item<Entry> | Stores(kids, x) :: 0 <= x.base && x.high < ADDRESS_LIMIT
    ensures AllStorable(kids)
  {
    forall i | 0 <= i < |kids| ensures Storable(kids[i]) {
      assert Nested(kids[i], lo, hi);
      assert Stores(kids, kids[i].Top());
      forall x: Item<Entry> | Stores(kids[i].kids, x) ensures 0 <= x.base && x.high < ADDRESS_LIMIT {
        assert Stores(kids, x);
      }
      StoredIsStorable(kids[i].kids, kids[i].base, kids[i].high);
    }
  }

  /** Store ranges in any order, write the map, and look an address up in the bytes: the answer is the entry of the
      smallest range that was stored and has the address. */
  method StoreWriteRetrieve(requests: seq<Request<Entry>>, root: Tree<Entry>, buffer: array<Byte>, start: nat,
                            address: Address)
    returns (found: bool, entry: Entry)
    requires root.kids == StoreAll(requests) && 0 <= root.base < ADDRESS_LIMIT && 0 <= root.high < ADDRESS_LIMIT
    requires start + |Encode(root)| <= buffer.Length && |Encode(root)| < 0x1_0000_0000
    modifies buffer
    ensures !found ==> forall x: Item<Entry> | Stores(StoreAll(requests), x) :: !x.Has(address)
    ensures found ==> exists x: Item<Entry> :: IsSmallest(StoreAll(requests), address, x) && entry == x.entry
  {
    StoreAllIsSound(requests);
    StoredIsStorable(root.kids, -1, ADDRESS_LIMIT);
    var dest := Write(root, buffer, start);
    found, entry := RetrieveRange(buffer[..], start, address, root, -1, ADDRESS_LIMIT);
    RetrieveIsSmallest(root.kids, -1, ADDRESS_LIMIT, address);
  }
}
