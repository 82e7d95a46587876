/** wasteful_vector: a vector in blocks of a PageAllocator, which takes a whole new block whenever it grows. An element is
    the bytes it takes. */
module WastefulVectors {
  import opened Bits
  import opened Bytes
  import opened Options
  import opened PageAllocators

  type Element = seq<Byte>

  // ---- Elements in bytes

  /** The size of `n` elements. */
  function Times(n: nat, width: nat): nat {
    if n == 0 then 0 else Times(n - 1, width) + width
  }

  /** The elements in some bytes, each `width` long. */
  function Elements(bytes: seq<Byte>, width: nat, n: nat): (es: seq<Element>)
    requires |bytes| == Times(n, width)
    ensures |es| == n
    decreases n
  {
    if n == 0 then []
    else Elements(bytes[..Times(n - 1, width)], width, n - 1) + [bytes[Times(n - 1, width)..]]
  }

  lemma {:induction false} MoreTake(m: nat, n: nat, width: nat)
    requires m <= n
    ensures Times(m, width) <= Times(n, width) && (m < n ==> Times(m, width) + width <= Times(n, width))
    decreases n
  {
    if m < n { MoreTake(m, n - 1, width); }
  }

  lemma OneElementMore(bytes: seq<Byte>, x: Element, n: nat)
    requires |bytes| == Times(n, |x|)
    ensures |bytes + x| == Times(n + 1, |x|) == Times(n, |x|) + |x|
    ensures Elements(bytes + x, |x|, n + 1) == Elements(bytes, |x|, n) + [x]
  {
    assert (bytes + x)[..Times(n, |x|)] == bytes && (bytes + x)[Times(n, |x|)..] == x;
  }

  lemma {:induction false} FirstElements(bytes: seq<Byte>, width: nat, m: nat, n: nat)
    requires m <= n && |bytes| == Times(n, width)
    ensures Times(m, width) <= Times(n, width) && Elements(bytes[..Times(m, width)], width, m) == Elements(bytes, width, n)[..m]
    decreases n
  {
    MoreTake(m, n, width);
    if m < n {
      MoreTake(m, n - 1, width);
      FirstElements(bytes[..Times(n - 1, width)], width, m, n - 1);
      assert bytes[..Times(n - 1, width)][..Times(m, width)] == bytes[..Times(m, width)];
    } else {
      assert bytes[..Times(m, width)] == bytes;
    }
  }

  /** The first `size` elements, or all of them and then `c` as often as it takes. */
  function Resized(es: seq<Element>, size: nat, c: Element): (r: seq<Element>)
    ensures |r| == size && forall k | 0 <= k < size :: r[k] == if k < |es| then es[k] else c
  {
    seq(size, k requires 0 <= k < size => if k < |es| then es[k] else c)
  }

  // ---- Doubling, in 32 bits

  function Twice(room: nat): (twice: nat)
    requires room < UNSIGNED_LIMIT
    ensures twice < UNSIGNED_LIMIT
  {
    if 2 * room < UNSIGNED_LIMIT then 2 * room else 2 * room - UNSIGNED_LIMIT
  }

  function Doublings(room: nat, k: nat): (after: nat)
    requires room < UNSIGNED_LIMIT
    ensures after < UNSIGNED_LIMIT
    decreases k
  {
    if k == 0 then room else Doublings(Twice(room), k - 1)
  }

  /** After `j` doublings there is enough, and not before. */
  ghost predicate IsEnough(room: nat, size: nat, j: nat)
    requires room < UNSIGNED_LIMIT
  {
    size <= Doublings(room, j) && forall i | 0 <= i < j :: Doublings(room, i) < size
  }

  /** After 32 doublings there is no bit left. */
  lemma {:induction false} NoBitIsLeft(room: nat, k: nat)
    requires room < UNSIGNED_LIMIT && k <= 32 && Low(room, 32 - k) == 0
    ensures Doublings(room, k) == 0
    decreases k
  {
    if k == 0 {
      assert Ones(32) == UNSIGNED_LIMIT - 1 by { Ones32(); }
      LowWhole(room, 32);
    } else {
      var y := 2 * room;
      assert y / 2 == room && Low(y, 33 - k) == 0;
      LowOfLimit(33 - k);
      if y >= UNSIGNED_LIMIT { LowBelow(y - UNSIGNED_LIMIT, UNSIGNED_LIMIT, 33 - k); }
      NoBitIsLeft(Twice(room), k - 1);
    }
  }

  lemma Ones32()
    ensures Ones(32) == UNSIGNED_LIMIT - 1
  {
    assert Ones(8) == 0xFF by { assert Ones(4) == 15; }
    assert Ones(16) == 0xFFFF by { assert Ones(12) == 0xFFF; }
    assert Ones(24) == 0xFF_FFFF by { assert Ones(20) == 0xF_FFFF; }
    assert Ones(28) == 0xFFF_FFFF;
  }

  lemma LowOfLimit(j: nat)
    requires j <= 32
    ensures Low(UNSIGNED_LIMIT, j) == 0
  {
    Up(1);
    ShiftSum(1, 8, 8);
    Up(0x100);
    ShiftSum(1, 16, 8);
    Up(0x1_0000);
    ShiftSum(1, 24, 8);
    Up(0x100_0000);
    LowOfShifted(1, 32, j);
  }

  lemma {:induction false} LowOfShifted(x: nat, m: nat, j: nat)
    requires j <= m
    ensures Low(ShiftLeft(x, m), j) == 0
  {
    if j > 0 {
      LowOfShifted(x, m - 1, j - 1);
      var y := ShiftLeft(x, m - 1);
      assert ShiftLeft(x, m) == 2 * y && 2 * y / 2 == y && 2 * y % 2 == 0;
    }
  }

  /** Adding a multiple of 2^k leaves the low `k` bits. */
  lemma {:induction false} LowBelow(x: nat, n: nat, k: nat)
    requires Low(n, k) == 0
    ensures Low(x + n, k) == Low(x, k)
  {
    if k > 0 {
      assert n % 2 == 0 && Low(n / 2, k - 1) == 0;
      assert (x + n) / 2 == x / 2 + n / 2 && (x + n) % 2 == x % 2;
      LowBelow(x / 2, n / 2, k - 1);
    }
  }

  lemma {:induction false} NothingStays(k: nat)
    ensures Doublings(0, k) == 0
  {
    if k > 0 { NothingStays(k - 1); }
  }

  lemma {:induction false} DoublingsAfter(room: nat, j: nat, k: nat)
    requires room < UNSIGNED_LIMIT
    ensures Doublings(room, j + k) == Doublings(Doublings(room, j), k)
    decreases j
  {
    if j > 0 { DoublingsAfter(Twice(room), j - 1, k); }
  }

  /** What is not enough by then never is: the loop does not end. */
  lemma NeverEnough(room: nat, size: nat, j: nat)
    requires room < UNSIGNED_LIMIT && size > 0 && forall i | 0 <= i <= 32 :: Doublings(room, i) < size
    ensures Doublings(room, j) < size
  {
    if j > 32 {
      NoBitIsLeft(room, 32);
      DoublingsAfter(room, 32, j - 32);
      NothingStays(j - 32);
    }
  }

  lemma {:induction false} TakesMore(n: nat, width: nat)
    requires width > 0
    ensures n <= Times(n, width)
  {
    if n > 0 { TakesMore(n - 1, width); }
  }

  lemma Positive(n: nat, width: nat)
    requires width > 0
    ensures Times(n, width) == 0 <==> n == 0
  {
    if n > 0 {
      MoreTake(0, n - 1, width);
    }
  }

  /** What is written right behind some bytes extends them. */
  lemma WroteBehind(before: seq<Byte>, after: seq<Byte>, a: nat, bytes: seq<Byte>, x: seq<Byte>)
    requires Holds(before, a, bytes) && Wrote(before, after, a + |bytes|, x)
    ensures Holds(after, a, bytes + x)
  {
    HoldsGrows(before, after, a, bytes, x);
  }

  /** What a block that is kept holds, it still holds. */
  lemma StillHolds(before: seq<Byte>, after: seq<Byte>, mapped: seq<Region>, blocks: seq<Region>, i: nat, a: nat,
                   bytes: seq<Byte>)
    requires Kept(before, after, mapped, blocks, -1) && Holds(before, a, bytes)
    requires bytes != [] ==> i < |blocks| && blocks[i].base == a && |bytes| <= blocks[i].size
    ensures Holds(after, a, bytes)
  {
    if bytes != [] {
      assert SameIn(before, after, blocks[i]);
      assert after[a..a + |bytes|] == before[a..a + |bytes|];
    }
  }

  lemma Shorter(memory: seq<Byte>, a: nat, n: nat, m: nat)
    requires m <= n && a + n <= |memory|
    ensures memory[a..a + n][..m] == memory[a..a + m]
  {
  }

  // ---- The vector

  class WastefulVector {
    const allocator: PageAllocator
    /** The size of an element. */
    const width: nat
    /** The block in use, and how many elements it has room for. The blocks before it stay where they are, unused. */
    var a: nat
    var capacity: nat
    var used: nat
    /** Which of the allocator's blocks it is. */
    ghost var slot: nat

    ghost predicate Valid()
      reads this, allocator, allocator.memory
    {
      && allocator.Valid() && width > 0 && used <= capacity < UNSIGNED_LIMIT
      && (capacity > 0 ==> slot < |allocator.blocks| && allocator.blocks[slot] == Region(a, Times(capacity, width)))
      && a + Times(used, width) <= allocator.memory.Length
    }

    /** The bytes in use. */
    ghost function InUse(): (bytes: seq<Byte>)
      requires a + Times(used, width) <= allocator.memory.Length
      reads this, allocator.memory
      ensures |bytes| == Times(used, width) && Holds(allocator.memory[..], a, bytes)
    {
      allocator.memory[..][a..a + Times(used, width)]
    }

    ghost function Contents(): seq<Element>
      requires Valid()
      reads this, allocator, allocator.memory
    {
      Elements(InUse(), width, used)
    }

    /** The allocator has a block for so many elements, whose size does not overflow. */
    predicate Served(n: nat, kernel: nat)
      requires IsPageSize(allocator.pageSize) && allocator.pageOffset <= allocator.pageSize
      reads this, allocator
    {
      Times(n, width) < UNSIGNED_LIMIT && allocator.Serves(Times(n, width), kernel)
    }

    /** Doubling comes to enough room for so many elements, and for that there is a block. */
    ghost predicate CanGrow(size: nat, kernel: nat)
      requires IsPageSize(allocator.pageSize) && allocator.pageOffset <= allocator.pageSize && capacity < UNSIGNED_LIMIT
      reads this, allocator
    {
      exists j :: IsEnough(capacity, size, j) && Served(Doublings(capacity, j), kernel)
    }

    ghost predicate KernelMaps(n: nat, kernel: nat)
      requires IsPageSize(allocator.pageSize) && allocator.pageOffset <= allocator.pageSize
      reads this, allocator
    {
      allocator.KernelMaps(Times(n, width) % UNSIGNED_LIMIT, kernel)
    }

    /** Without a block of the right size the vector is not valid from the start. */
    constructor (allocator: PageAllocator, width: nat, sizeHint: nat, kernel: nat)
      requires allocator.Valid() && width > 0 && sizeHint < UNSIGNED_LIMIT
      requires allocator.KernelMaps(Times(sizeHint, width) % UNSIGNED_LIMIT, kernel)
      modifies allocator, allocator.memory
      ensures this.allocator == allocator && this.width == width && capacity == sizeHint && used == 0
      ensures Valid() <==> sizeHint == 0 || (Times(sizeHint, width) < UNSIGNED_LIMIT
                                             && old(allocator.Serves(Times(sizeHint, width), kernel)))
      ensures Valid() ==> Contents() == []
      ensures slot == |old(allocator.blocks)|
      ensures old(allocator.mapped) <= allocator.mapped && old(allocator.blocks) <= allocator.blocks
      ensures Kept(old(allocator.memory[..]), allocator.memory[..], old(allocator.mapped), old(allocator.blocks), -1)
    {
      hide Kept, AreMappings, Chained, AllApart, AllInUsable, ApartFrom, Elements;
      this.allocator, this.width := allocator, width;
      slot := |allocator.blocks|;
      var block := allocator.Alloc(Times(sizeHint, width) % UNSIGNED_LIMIT, kernel);
      Positive(sizeHint, width);
      a, capacity, used := block, sizeHint, 0;
      new;
      if allocator.Valid() && slot < |allocator.blocks| {
        BlockFits(allocator.blocks, allocator.mapped, slot, allocator.pageSize, allocator.memory.Length);
      }
      assert Valid() ==> InUse() == [];
    }

    /** `ok` says that the vector has a block for all that it has room for. Otherwise the program goes on to write at NULL, or
        in a block that is too small or in part not mapped, which is not followed here. */
    method PushBack(x: Element, kernel: nat) returns (ok: bool)
      requires Valid() && |x| == width && (used == capacity ==> KernelMaps(Twice(capacity), kernel))
      modifies this, allocator, allocator.memory
      ensures ok <==> old(used < capacity || Served(2 * capacity, kernel))
      ensures ok ==> Valid() && Contents() == old(Contents()) + [x]
      ensures ok ==> Grown(old(slot), old(|allocator.blocks|))
      ensures ok ==> old(allocator.mapped) <= allocator.mapped && old(allocator.blocks) <= allocator.blocks
      ensures ok ==>
                Kept(old(allocator.memory[..]), allocator.memory[..], old(allocator.mapped), old(allocator.blocks), old(slot))
    {
      ghost var before, mapped, blocks, was := allocator.memory[..], allocator.mapped, allocator.blocks, slot;
      KeptSame(before, mapped, blocks, was);
      if used == capacity {
        TwiceIsServed();
        ok := Realloc(Twice(capacity), kernel);
        if !ok { return; }
        KeptAll(before, allocator.memory[..], mapped, blocks, was);
      }
      ghost var between := allocator.memory[..];
      Store(x);
      KeptTwice(before, between, allocator.memory[..], mapped, allocator.mapped, blocks, allocator.blocks, was, slot);
      ok := true;
    }

    /** Doubling gives more room, unless it overflows, and then there is no block for twice as much. */
    lemma TwiceIsServed()
      requires Valid()
      ensures forall kernel :: Served(Twice(capacity), kernel) && capacity <= Twice(capacity) <==> Served(2 * capacity, kernel)
      ensures forall kernel :: Served(Twice(capacity), kernel) && capacity <= Twice(capacity) ==> capacity < Twice(capacity)
    {
      TakesMore(2 * capacity, width);
    }

    /** The vector is in the block it was in, or in a new one. */
    ghost predicate Grown(was: nat, blocks: nat)
      reads this
    {
      slot == was || slot >= blocks
    }

    /** Put an element where there is room for one. */
    method Store(x: Element)
      requires Valid() && |x| == width && used < capacity
      modifies `used, allocator.memory
      ensures Valid() && used == old(used) + 1 && Contents() == old(Contents()) + [x]
      ensures Kept(old(allocator.memory[..]), allocator.memory[..], allocator.mapped, allocator.blocks, slot)
    {
      hide Kept, Elements;
      ghost var bytes := InUse();
      PutNext(x, bytes);
      OneElementMore(bytes, x, used);
      ghost var after := allocator.memory[..];
      used := used + 1;
      assert allocator.memory[..] == after;
      assert InUse() == bytes + x;
    }

    /** The bytes of an element, behind those in use. */
    method PutNext(x: Element, ghost bytes: seq<Byte>)
      requires Valid() && |x| == width && used < capacity && bytes == InUse()
      modifies allocator.memory
      ensures allocator.Valid() && Holds(allocator.memory[..], a, bytes + x)
      ensures Kept(old(allocator.memory[..]), allocator.memory[..], allocator.mapped, allocator.blocks, slot)
    {
      ghost var before := allocator.memory[..];
      MoreTake(used, capacity, width);
      PutInBlock(allocator, a + Times(used, width), x, slot);
      WroteBehind(before, allocator.memory[..], a, bytes, x);
    }

    /** Cut off what is too much, or fill up with `c`. Where doubling never gives enough room, the program does not end. */
    method Resize(size: nat, c: Element, kernel: nat) returns (ok: bool)
      requires Valid() && |c| == width && size < UNSIGNED_LIMIT
      requires size > capacity ==> forall j | IsEnough(capacity, size, j) :: KernelMaps(Doublings(capacity, j), kernel)
      modifies this, allocator, allocator.memory
      ensures ok <==> old(size <= capacity || CanGrow(size, kernel))
      ensures ok ==> Valid() && Contents() == Resized(old(Contents()), size, c)
      ensures ok ==> Grown(old(slot), old(|allocator.blocks|))
      ensures ok ==> old(allocator.mapped) <= allocator.mapped && old(allocator.blocks) <= allocator.blocks
      ensures ok ==>
                Kept(old(allocator.memory[..]), allocator.memory[..], old(allocator.mapped), old(allocator.blocks), old(slot))
    {
      if size <= used {
        KeptSame(allocator.memory[..], allocator.mapped, allocator.blocks, slot);
        Cut(size);
        ok := true;
      } else {
        ok := Enlarge(size, c, kernel);
      }
    }

    method Enlarge(size: nat, c: Element, kernel: nat) returns (ok: bool)
      requires Valid() && |c| == width && used < size < UNSIGNED_LIMIT
      requires size > capacity ==> forall j | IsEnough(capacity, size, j) :: KernelMaps(Doublings(capacity, j), kernel)
      modifies this, allocator, allocator.memory
      ensures ok <==> old(size <= capacity || CanGrow(size, kernel))
      ensures ok ==> Valid() && Contents() == Resized(old(Contents()), size, c)
      ensures ok ==> Grown(old(slot), old(|allocator.blocks|))
      ensures ok ==> old(allocator.mapped) <= allocator.mapped && old(allocator.blocks) <= allocator.blocks
      ensures ok ==>
                Kept(old(allocator.memory[..]), allocator.memory[..], old(allocator.mapped), old(allocator.blocks), old(slot))
    {
      ghost var before, mapped, blocks, was := allocator.memory[..], allocator.mapped, allocator.blocks, slot;
      KeptSame(before, mapped, blocks, was);
      if size > capacity {
        ok := Grow(size, kernel);
        if !ok { return; }
        KeptAll(before, allocator.memory[..], mapped, blocks, was);
      }
      ghost var between := allocator.memory[..];
      Fill(size, c);
      KeptTwice(before, between, allocator.memory[..], mapped, allocator.mapped, blocks, allocator.blocks, was, slot);
      ok := true;
    }

    method Cut(size: nat)
      requires Valid() && size <= used
      modifies `used
      ensures Valid() && Contents() == old(Contents())[..size]
    {
      ghost var bytes, memory := InUse(), allocator.memory[..];
      FirstElements(bytes, width, size, used);
      Shorter(memory, a, Times(used, width), Times(size, width));
      used := size;
      assert allocator.memory[..] == memory;
      assert InUse() == bytes[..Times(size, width)];
    }

    /** A new block, with room for so many elements. */
    method Grow(size: nat, kernel: nat) returns (ok: bool)
      requires Valid() && capacity < size < UNSIGNED_LIMIT
      requires forall j | IsEnough(capacity, size, j) :: KernelMaps(Doublings(capacity, j), kernel)
      modifies this, allocator, allocator.memory
      ensures ok <==> old(CanGrow(size, kernel))
      ensures ok ==> Valid() && capacity >= size && used == old(used) && Contents() == old(Contents())
      ensures ok ==> slot == |old(allocator.blocks)|
      ensures ok ==> old(allocator.mapped) <= allocator.mapped && old(allocator.blocks) <= allocator.blocks
      ensures ok ==> Kept(old(allocator.memory[..]), allocator.memory[..], old(allocator.mapped), old(allocator.blocks), -1)
    {
      var room, j := RoomFor(size);
      if room.None? { return false; }
      ok := Realloc(room.value, kernel);
    }

    /** Doubling until there is room, which after 32 times there never will be. */
    method RoomFor(size: nat) returns (room: Option<nat>, ghost j: nat)
      requires 0 < size && capacity < UNSIGNED_LIMIT
      ensures room.Some? ==> room.value == Doublings(capacity, j)
      ensures forall i :: IsEnough(capacity, size, i) <==> room.Some? && i == j
    {
      var a, k: nat := capacity, 0;
      j := 0;
      while size > a
        invariant j == k <= 32 && a == Doublings(capacity, k) && forall i | 0 <= i < k :: Doublings(capacity, i) < size
        decreases 32 - k
      {
        if k == 32 {
          forall i ensures Doublings(capacity, i) < size { NeverEnough(capacity, size, i); }
          return None, j;
        }
        DoublingsAfter(capacity, k, 1);
        assert Doublings(a, 1) == Doublings(Twice(a), 0);
        a, k, j := Twice(a), k + 1, j + 1;
      }
      room := Some(a);
    }

    method Fill(size: nat, c: Element)
      requires Valid() && |c| == width && used <= size <= capacity
      modifies `used, allocator.memory
      ensures Valid() && Contents() == Resized(old(Contents()), size, c)
      ensures Kept(old(allocator.memory[..]), allocator.memory[..], allocator.mapped, allocator.blocks, slot)
    {
      ghost var before, es := allocator.memory[..], Contents();
      KeptSame(before, allocator.mapped, allocator.blocks, slot);
      while size > used
        invariant used <= size && Valid() && Contents() == Resized(es, used, c) && |es| <= used
        invariant Kept(before, allocator.memory[..], allocator.mapped, allocator.blocks, slot)
      {
        ghost var between := allocator.memory[..];
        Store(c);
        KeptTwice(before, between, allocator.memory[..], allocator.mapped, allocator.mapped,
                  allocator.blocks, allocator.blocks, slot, slot);
      }
    }

    method Realloc(newSize: nat, kernel: nat) returns (ok: bool)
      requires Valid() && newSize < UNSIGNED_LIMIT && KernelMaps(newSize, kernel)
      modifies this, allocator, allocator.memory
      ensures ok <==> old(used <= newSize && Served(newSize, kernel))
      ensures ok ==> Valid() && capacity == newSize && used == old(used) && Contents() == old(Contents())
      ensures ok ==> slot == |old(allocator.blocks)|
      ensures ok ==> old(allocator.mapped) <= allocator.mapped && old(allocator.blocks) <= allocator.blocks
      ensures ok ==> Kept(old(allocator.memory[..]), allocator.memory[..], old(allocator.mapped), old(allocator.blocks), -1)
    {
      ok := used <= newSize && Served(newSize, kernel);
      if !ok { return; }
      ghost var bytes, to := InUse(), |allocator.blocks|;
      var newArray := CopyToNew(newSize, kernel, bytes);
      a, capacity, slot := newArray, newSize, to;
      assert InUse() == bytes;
    }

    /** A new block, with the bytes in use. */
    method CopyToNew(newSize: nat, kernel: nat, ghost bytes: seq<Byte>) returns (newArray: nat)
      requires Valid() && newSize >= used && Served(newSize, kernel) && KernelMaps(newSize, kernel) && bytes == InUse()
      modifies allocator, allocator.memory
      ensures allocator.Valid() && Holds(allocator.memory[..], newArray, bytes)
      ensures allocator.blocks == old(allocator.blocks) + [Region(newArray, Times(newSize, width))]
      ensures old(allocator.mapped) <= allocator.mapped
      ensures Kept(old(allocator.memory[..]), allocator.memory[..], old(allocator.mapped), old(allocator.blocks), -1)
    {
      ghost var before, mapped, blocks := allocator.memory[..], allocator.mapped, allocator.blocks;
      newArray := NewBlock(newSize, kernel, bytes);
      ghost var between := allocator.memory[..];
      MoreTake(used, newSize, width);
      Copy(newArray, bytes, |blocks|);
      KeptTwice(before, between, allocator.memory[..], mapped, allocator.mapped, blocks, allocator.blocks, -1, |blocks|);
    }

    /** A block for so many elements; the one in use stays as it is. */
    method NewBlock(newSize: nat, kernel: nat, ghost bytes: seq<Byte>) returns (newArray: nat)
      requires Valid() && Served(newSize, kernel) && KernelMaps(newSize, kernel) && bytes == InUse()
      modifies allocator, allocator.memory
      ensures allocator.Valid() && Holds(allocator.memory[..], a, bytes)
      ensures allocator.blocks == old(allocator.blocks) + [Region(newArray, Times(newSize, width))]
      ensures old(allocator.mapped) <= allocator.mapped
      ensures Kept(old(allocator.memory[..]), allocator.memory[..], old(allocator.mapped), old(allocator.blocks), -1)
    {
      hide AreMappings, Chained, AllApart, AllInUsable, ApartFrom;
      ghost var before, mapped, blocks := allocator.memory[..], allocator.mapped, allocator.blocks;
      Positive(newSize, width);
      MoreTake(used, capacity, width);
      newArray := allocator.Alloc(Times(newSize, width), kernel);
      StillHolds(before, allocator.memory[..], mapped, blocks, slot, a, bytes);
    }

    /** memcpy, of the bytes in use into a new block. */
    method Copy(newArray: nat, ghost bytes: seq<Byte>, ghost to: nat)
      requires allocator.Valid() && Holds(allocator.memory[..], a, bytes) && |bytes| == Times(used, width)
      requires to < |allocator.blocks| && allocator.blocks[to].base == newArray && |bytes| <= allocator.blocks[to].size
      modifies allocator.memory
      ensures allocator.Valid() && Holds(allocator.memory[..], newArray, bytes)
      ensures Kept(old(allocator.memory[..]), allocator.memory[..], allocator.mapped, allocator.blocks, to)
    {
      assert allocator.memory[a..a + Times(used, width)] == bytes;
      PutInBlock(allocator, newArray, allocator.memory[a..a + Times(used, width)], to);
    }
  }

  // ---- Two vectors on one allocator

  lemma OtherHolds(before: seq<Byte>, after: seq<Byte>, mapped: seq<Region>, blocks: seq<Region>, i: nat, but: nat, a: nat,
                   bytes: seq<Byte>)
    requires Kept(before, after, mapped, blocks, but) && Holds(before, a, bytes) && i != but
    requires i < |blocks| && blocks[i].base == a && |bytes| <= blocks[i].size
    ensures Holds(after, a, bytes)
  {
    assert SameIn(before, after, blocks[i]);
    assert after[a..a + |bytes|] == before[a..a + |bytes|];
  }

  /** Whatever one vector does to its contents, the other keeps its own. */
  method PushBackBeside(v: WastefulVector, w: WastefulVector, x: Element, kernel: nat) returns (ok: bool)
    requires v.Valid() && w.Valid() && v != w && v.allocator == w.allocator
    requires v.capacity > 0 && w.capacity > 0 && v.slot != w.slot
    requires |x| == v.width && (v.used == v.capacity ==> v.KernelMaps(Twice(v.capacity), kernel))
    modifies v, v.allocator, v.allocator.memory
    ensures ok <==> old(v.used < v.capacity || v.Served(2 * v.capacity, kernel))
    ensures ok ==> v.Valid() && w.Valid() && v.slot != w.slot
    ensures ok ==> v.Contents() == old(v.Contents()) + [x] && w.Contents() == old(w.Contents())
  {
    hide Kept, AreMappings, Chained, AllApart, AllInUsable, ApartFrom;
    ghost var allocator := v.allocator;
    ghost var before, bytes, mapped, blocks := allocator.memory[..], w.InUse(), allocator.mapped, allocator.blocks;
    MoreTake(w.used, w.capacity, w.width);
    ok := v.PushBack(x, kernel);
    if !ok { return; }
    OtherHolds(before, allocator.memory[..], mapped, blocks, w.slot, old(v.slot), w.a, bytes);
    assert w.InUse() == bytes;
  }
}
