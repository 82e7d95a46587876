/** The entries of a .stab section, and the iterator that walks them. */
module StabsEntries {
  import opened ByteCursors
  import opened Bytes

  const N_UNDF: Byte := 0x00
  const N_FUN: Byte := 0x24
  const N_SLINE: Byte := 0x44
  const N_SO: Byte := 0x64
  const N_SOL: Byte := 0x84

  /** The descriptor is given as the unsigned line number it is used for. */
  datatype Entry = Entry(nameOffset: nat, kind: nat, other: nat, descriptor: nat, value: nat)

  function EntryFrom(bs: seq<Byte>, bigEndian: bool): Entry
    requires |bs| >= 8
  {
    Entry(NumberIn(bs[..4], bigEndian), NumberIn(bs[4..5], bigEndian), NumberIn(bs[5..6], bigEndian),
          NumberIn(bs[6..8], bigEndian), NumberIn(bs[8..], bigEndian))
  }

  /** All whole entries of a section. */
  function Entries(stab: seq<Byte>, bigEndian: bool, valueSize: nat): seq<Entry> {
    var width := 8 + valueSize;
    if |stab| < width then []
    else [EntryFrom(stab[..width], bigEndian)] + Entries(stab[width..], bigEndian, valueSize)
  }

  // ---- Sections made of entries

  ghost predicate EntryFits(e: Entry, valueSize: nat) {
    e.nameOffset < Limit(4) && e.kind < 256 && e.other < 256 && e.descriptor < Limit(2) && e.value < Limit(valueSize)
  }

  function BytesOf(n: nat, width: nat, bigEndian: bool): (bs: seq<Byte>)
    ensures |bs| == width
  {
    if bigEndian then Big(n, width) else Little(n, width)
  }

  function EntryBytes(e: Entry, bigEndian: bool, valueSize: nat): (bs: seq<Byte>)
    ensures |bs| == 8 + valueSize
  {
    BytesOf(e.nameOffset, 4, bigEndian) + BytesOf(e.kind, 1, bigEndian) + BytesOf(e.other, 1, bigEndian)
    + BytesOf(e.descriptor, 2, bigEndian) + BytesOf(e.value, valueSize, bigEndian)
  }

  /** The bytes of a section with these entries. */
  function SectionBytes(entries: seq<Entry>, bigEndian: bool, valueSize: nat): seq<Byte> {
    if entries == [] then [] else EntryBytes(entries[0], bigEndian, valueSize) + SectionBytes(entries[1..], bigEndian, valueSize)
  }

  lemma NumberOfBytes(n: nat, width: nat, bigEndian: bool)
    requires n < Limit(width)
    ensures NumberIn(BytesOf(n, width, bigEndian), bigEndian) == n
  {
    NumberOfLittle(n, width);
    NumberOfBig(n, width);
  }

  lemma OneEntryIsRead(e: Entry, bigEndian: bool, valueSize: nat)
    requires EntryFits(e, valueSize)
    ensures EntryFrom(EntryBytes(e, bigEndian, valueSize), bigEndian) == e
  {
    var a, b, c := BytesOf(e.nameOffset, 4, bigEndian), BytesOf(e.kind, 1, bigEndian), BytesOf(e.other, 1, bigEndian);
    var d, v := BytesOf(e.descriptor, 2, bigEndian), BytesOf(e.value, valueSize, bigEndian);
    var bs := EntryBytes(e, bigEndian, valueSize);
    assert bs == a + b + c + d + v;
    assert bs[..4] == a && bs[4..5] == b && bs[5..6] == c && bs[6..8] == d && bs[8..] == v;
    NumberOfBytes(e.nameOffset, 4, bigEndian);
    NumberOfBytes(e.kind, 1, bigEndian);
    NumberOfBytes(e.other, 1, bigEndian);
    NumberOfBytes(e.descriptor, 2, bigEndian);
    NumberOfBytes(e.value, valueSize, bigEndian);
  }

  /** The entries of a section are those it was made of. */
  lemma {:induction false} EntriesOfSection(entries: seq<Entry>, bigEndian: bool, valueSize: nat)
    requires forall k | 0 <= k < |entries| :: EntryFits(entries[k], valueSize)
    ensures Entries(SectionBytes(entries, bigEndian, valueSize), bigEndian, valueSize) == entries
    decreases |entries|
  {
    hide EntryBytes, EntryFrom;
    if entries != [] {
      var first, rest := EntryBytes(entries[0], bigEndian, valueSize), SectionBytes(entries[1..], bigEndian, valueSize);
      OneEntryIsRead(entries[0], bigEndian, valueSize);
      EntriesOfSection(entries[1..], bigEndian, valueSize);
      assert (first + rest)[..8 + valueSize] == first && (first + rest)[8 + valueSize..] == rest;
    }
  }

  /** As many as fit, whatever is left over. */
  lemma {:induction false} EntriesCount(stab: seq<Byte>, bigEndian: bool, valueSize: nat)
    requires valueSize in {4, 8}
    ensures |Entries(stab, bigEndian, valueSize)| == |stab| / (8 + valueSize)
    decreases |stab|
  {
    if |stab| >= 8 + valueSize { EntriesCount(stab[8 + valueSize..], bigEndian, valueSize); }
    if valueSize == 4 {
      assert |stab| / 12 == if |stab| < 12 then 0 else (|stab| - 12) / 12 + 1;
    } else {
      assert |stab| / 16 == if |stab| < 16 then 0 else (|stab| - 16) / 16 + 1;
    }
  }

  lemma EntryInBuffer(buffer: seq<Byte>, at: nat, valueSize: nat, big: bool)
    requires at + 8 + valueSize <= |buffer|
    ensures EntryFrom(buffer[at..][..8 + valueSize], big)
         == Entry(NumberIn(buffer[at..at + 4], big), NumberIn(buffer[at + 4..at + 5], big),
                  NumberIn(buffer[at + 5..at + 6], big), NumberIn(buffer[at + 6..at + 8], big),
                  NumberIn(buffer[at + 8..at + 8 + valueSize], big))
  {
    var bs := buffer[at..][..8 + valueSize];
    assert bs[..4] == buffer[at..at + 4] && bs[4..5] == buffer[at + 4..at + 5] && bs[5..6] == buffer[at + 5..at + 6];
    assert bs[6..8] == buffer[at + 6..at + 8] && bs[8..] == buffer[at + 8..at + 8 + valueSize];
  }

  /** Each field's type has room for the field. */
  lemma FieldsAreWhole(buffer: seq<Byte>, at: nat, valueSize: nat, big: bool)
    requires at + 8 + valueSize <= |buffer| && valueSize in {4, 8}
    ensures Taken(buffer[at..at + 4], big, false, 8) == NumberIn(buffer[at..at + 4], big)
    ensures Taken(buffer[at + 4..at + 5], big, false, 1) == NumberIn(buffer[at + 4..at + 5], big)
    ensures Taken(buffer[at + 5..at + 6], big, false, 1) == NumberIn(buffer[at + 5..at + 6], big)
    ensures Taken(buffer[at + 6..at + 8], big, false, 2) == NumberIn(buffer[at + 6..at + 8], big)
    ensures Taken(buffer[at + 8..at + 8 + valueSize], big, false, 8) == NumberIn(buffer[at + 8..at + 8 + valueSize], big)
  {
    TakenWhole(buffer[at..at + 4], big, 8);
    TakenWhole(buffer[at + 4..at + 5], big, 1);
    TakenWhole(buffer[at + 5..at + 6], big, 1);
    TakenWhole(buffer[at + 6..at + 8], big, 2);
    TakenWhole(buffer[at + 8..at + 8 + valueSize], big, 8);
  }

  class EntryIterator {
    const cursor: ByteCursor
    const valueSize: nat
    var index: nat
    var atEnd: bool
    var entry: Entry

    ghost function All(): seq<Entry> {
      Entries(cursor.buffer, cursor.bigEndian, valueSize)
    }

    /** The iterator is at entry `index` of the section, or behind the last one. */
    ghost predicate Valid()
      reads this, cursor
    {
      && valueSize in {4, 8} && cursor.here <= |cursor.buffer|
      && (atEnd <==> index == |All()|) && index <= |All()|
      && (!atEnd ==>
            && cursor.complete && entry == All()[index]
            && Entries(cursor.buffer[cursor.here..], cursor.bigEndian, valueSize) == All()[index + 1..])
    }

    constructor (stab: seq<Byte>, bigEndian: bool, valueSize: nat)
      requires valueSize in {4, 8}
      ensures Valid() && index == 0 && fresh(cursor)
      ensures cursor.buffer == stab && cursor.bigEndian == bigEndian && this.valueSize == valueSize
    {
      cursor := new ByteCursor(stab, bigEndian);
      this.valueSize, index := valueSize, 0;
      entry, atEnd := Entry(0, 0, 0, 0, 0), false;
      new;
      assert stab[0..] == stab;
      Fetch();
    }

    /** Read the next entry, if all its bytes are there. */
    method Fetch()
      requires valueSize in {4, 8} && cursor.here <= |cursor.buffer| && cursor.complete
      modifies `entry, `atEnd, cursor
      ensures cursor.here <= |cursor.buffer|
      ensures var rest := cursor.buffer[old(cursor.here)..];
              if |rest| < 8 + valueSize then atEnd
              else
                && !atEnd && cursor.complete && entry == EntryFrom(rest[..8 + valueSize], cursor.bigEndian)
                && cursor.here == old(cursor.here) + 8 + valueSize
    {
      ghost var rest, at := cursor.buffer[cursor.here..], cursor.here;
      var nameOffset := cursor.Read(4, false, 8);
      var kind := cursor.Read(1, false, 1);
      var other := cursor.Read(1, false, 1);
      var descriptor := cursor.Read(2, false, 2);
      var value := cursor.Read(valueSize, false, 8);
      entry := Entry(nameOffset, kind, other, descriptor, value);
      atEnd := !cursor.complete;
      if !atEnd {
        EntryInBuffer(cursor.buffer, at, valueSize, cursor.bigEndian);
        FieldsAreWhole(cursor.buffer, at, valueSize, cursor.bigEndian);
      }
    }

    method Next()
      requires Valid() && !atEnd
      modifies this, cursor
      ensures Valid() && index == old(index) + 1
    {
      ghost var rest := cursor.buffer[cursor.here..];
      ghost var at := cursor.here;
      Fetch();
      if !atEnd {
        assert rest[8 + valueSize..] == cursor.buffer[cursor.here..];
      }
      index := index + 1;
    }
  }
}
