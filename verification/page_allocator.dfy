/** PageAllocator: blocks cut from pages that come from the kernel. Memory is an array of bytes, addresses are positions in
    it, and 0 is NULL. */
module PageAllocators {
  import opened Addresses
  import opened Bytes

  /** sizeof(PageHeader), where a pointer has eight bytes. */
  const HEADER_SIZE := 16
  const UNSIGNED_LIMIT := 0x1_0000_0000

  datatype Region = Region(base: nat, size: nat) {
    function End(): nat { base + size }

    /** What a mapping has behind its header. */
    function Usable(): Region { Region(base + HEADER_SIZE, if size >= HEADER_SIZE then size - HEADER_SIZE else 0) }
  }

  predicate Apart(a: Region, b: Region) {
    a.End() <= b.base || b.End() <= a.base
  }

  predicate Within(a: Region, b: Region) {
    b.base <= a.base && a.End() <= b.End()
  }

  ghost predicate AllApart(rs: seq<Region>) {
    forall i, j {:trigger Apart(rs[i], rs[j])} | 0 <= i < j < |rs| :: Apart(rs[i], rs[j])
  }

  ghost predicate ApartFrom(rs: seq<Region>, r: Region) {
    forall i {:trigger Apart(rs[i], r)} | 0 <= i < |rs| :: Apart(rs[i], r)
  }

  /** The region is in one of the mappings, and clear of its header. */
  ghost predicate InUsable(r: Region, mapped: seq<Region>) {
    exists i :: 0 <= i < |mapped| && Within(r, mapped[i].Usable())
  }

  ghost predicate AllInUsable(rs: seq<Region>, mapped: seq<Region>) {
    forall i {:trigger InUsable(rs[i], mapped)} | 0 <= i < |rs| :: InUsable(rs[i], mapped)
  }

  // ---- Page headers, in memory: the address of the next, and the number of pages

  function HeaderOf(m: Region): Region { Region(m.base, HEADER_SIZE) }

  /** The headers in memory lead from the newest mapping to the oldest. */
  ghost predicate Chained(bytes: seq<Byte>, last: nat, mapped: seq<Region>, pageSize: nat)
    decreases |mapped|
  {
    if mapped == [] then last == 0
    else
      var newest := mapped[|mapped| - 1];
      && last == newest.base && last != 0 && HeaderOf(newest).End() <= |bytes|
      && newest.size == SizeOf(Number(bytes[last + 8..last + 12]), pageSize)
      && Chained(bytes, Number(bytes[last..last + 8]), mapped[..|mapped| - 1], pageSize)
  }

  // ---- What stays in memory

  ghost predicate SameIn(before: seq<Byte>, after: seq<Byte>, r: Region) {
    forall x {:trigger after[x]} | r.base <= x < r.End() && x < |before| == |after| :: after[x] == before[x]
  }

  /** Every page header, and every block but one, is as it was. */
  ghost predicate Kept(before: seq<Byte>, after: seq<Byte>, mapped: seq<Region>, blocks: seq<Region>, but: int) {
    && |before| == |after|
    && (forall i {:trigger HeaderOf(mapped[i])} | 0 <= i < |mapped| :: SameIn(before, after, HeaderOf(mapped[i])))
    && (forall i {:trigger SameIn(before, after, blocks[i])} | 0 <= i < |blocks| && i != but :: SameIn(before, after, blocks[i]))
  }

  /** What is written apart from a region leaves it as it was. */
  lemma ApartIsSame(before: seq<Byte>, after: seq<Byte>, from: nat, to: nat, r: Region)
    requires OnlyWritten(before, after, from, to) && Apart(Region(from, if from <= to then to - from else 0), r)
    ensures SameIn(before, after, r)
  {
  }

  /** Where the headers stay, the chain stays. */
  lemma {:induction false} ChainStays(before: seq<Byte>, after: seq<Byte>, last: nat, mapped: seq<Region>, pageSize: nat)
    requires Chained(before, last, mapped, pageSize) && |before| == |after|
    requires forall i | 0 <= i < |mapped| :: SameIn(before, after, HeaderOf(mapped[i]))
    ensures Chained(after, last, mapped, pageSize)
    decreases |mapped|
  {
    if mapped != [] {
      var n := |mapped| - 1;
      var header := HeaderOf(mapped[n]);
      assert SameIn(before, after, header);
      assert after[last..last + 8] == before[last..last + 8] && after[last + 8..last + 12] == before[last + 8..last + 12];
      forall i | 0 <= i < n ensures SameIn(before, after, HeaderOf(mapped[..n][i])) {
        assert mapped[..n][i] == mapped[i];
      }
      ChainStays(before, after, Number(before[last..last + 8]), mapped[..n], pageSize);
    }
  }

  /** Writing inside a block keeps everything but that block. */
  lemma WriteKeeps(before: seq<Byte>, after: seq<Byte>, from: nat, to: nat, mapped: seq<Region>, blocks: seq<Region>, i: nat)
    requires OnlyWritten(before, after, from, to) && from <= to && i < |blocks|
    requires blocks[i].base <= from && to <= blocks[i].End()
    requires AllApart(mapped) && AllApart(blocks) && AllInUsable(blocks, mapped)
    requires forall k | 0 <= k < |mapped| :: mapped[k].size >= HEADER_SIZE
    ensures Kept(before, after, mapped, blocks, i)
  {
    assert InUsable(blocks[i], mapped);
    forall k | 0 <= k < |mapped| ensures SameIn(before, after, HeaderOf(mapped[k])) {
      HeaderIsApart(blocks[i], mapped, k);
      ApartIsSame(before, after, from, to, HeaderOf(mapped[k]));
    }
    forall k | 0 <= k < |blocks| && k != i ensures SameIn(before, after, blocks[k]) {
      assert if k < i then Apart(blocks[k], blocks[i]) else Apart(blocks[i], blocks[k]);
      ApartIsSame(before, after, from, to, blocks[k]);
    }
  }

  /** So a client that writes inside its block leaves the allocator as valid as it was. */
  lemma ClientWrites(before: seq<Byte>, after: seq<Byte>, from: nat, to: nat, last: nat, mapped: seq<Region>,
                     blocks: seq<Region>, i: nat, pageSize: nat)
    requires OnlyWritten(before, after, from, to) && from <= to && i < |blocks|
    requires blocks[i].base <= from && to <= blocks[i].End()
    requires AreMappings(mapped, pageSize, |before|) && pageSize >= HEADER_SIZE && Chained(before, last, mapped, pageSize)
    requires AllApart(blocks) && AllInUsable(blocks, mapped)
    ensures Kept(before, after, mapped, blocks, i) && Chained(after, last, mapped, pageSize)
  {
    WriteKeeps(before, after, from, to, mapped, blocks, i);
    ChainStays(before, after, last, mapped, pageSize);
  }

  lemma HeaderIsApart(block: Region, mapped: seq<Region>, k: nat)
    requires InUsable(block, mapped) && AllApart(mapped) && k < |mapped|
    requires forall i | 0 <= i < |mapped| :: mapped[i].size >= HEADER_SIZE
    ensures Apart(block, HeaderOf(mapped[k]))
  {
    var m :| 0 <= m < |mapped| && Within(block, mapped[m].Usable());
    if k < m { assert Apart(mapped[k], mapped[m]); }
    if m < k { assert Apart(mapped[m], mapped[k]); }
  }

  lemma KeptSame(bytes: seq<Byte>, mapped: seq<Region>, blocks: seq<Region>, but: int)
    ensures Kept(bytes, bytes, mapped, blocks, but)
  {
  }

  lemma KeptAll(before: seq<Byte>, after: seq<Byte>, mapped: seq<Region>, blocks: seq<Region>, but: int)
    requires Kept(before, after, mapped, blocks, -1)
    ensures Kept(before, after, mapped, blocks, but)
  {
  }

  lemma KeptTwice(before: seq<Byte>, between: seq<Byte>, after: seq<Byte>, mapped: seq<Region>, mapped': seq<Region>,
                  blocks: seq<Region>, blocks': seq<Region>, but: int, but': int)
    requires Kept(before, between, mapped, blocks, but) && Kept(between, after, mapped', blocks', but')
    requires mapped <= mapped' && blocks <= blocks' && (but' == but || but' >= |blocks| || but' < 0)
    ensures Kept(before, after, mapped, blocks, but)
  {
    forall i | 0 <= i < |mapped| ensures SameIn(before, after, HeaderOf(mapped[i])) {
      assert mapped'[i] == mapped[i];
      assert SameIn(before, between, HeaderOf(mapped[i])) && SameIn(between, after, HeaderOf(mapped'[i]));
    }
    forall i | 0 <= i < |blocks| && i != but ensures SameIn(before, after, blocks[i]) {
      assert blocks'[i] == blocks[i];
      assert SameIn(before, between, blocks[i]) && SameIn(between, after, blocks'[i]);
    }
  }

  /** The pages for `n` bytes: as many as are needed, and no more. */
  lemma PagesFor(n: nat, pageSize: nat)
    requires n > 0 && pageSize > 0
    ensures var pages := (n + pageSize - 1) / pageSize;
            && pages > 0 && pageSize * pages == pageSize * (pages - 1) + pageSize
            && pageSize * (pages - 1) < n <= pageSize * (pages - 1) + pageSize
  {
    var pages, r := (n + pageSize - 1) / pageSize, (n + pageSize - 1) % pageSize;
    QuotientIsPositive(n + pageSize - 1, pageSize);
    assert n + pageSize - 1 == pageSize * pages + r;
    assert pageSize * pages == pageSize * (pages - 1) + pageSize;
  }

  lemma QuotientIsPositive(n: nat, d: nat)
    requires n >= d > 0
    ensures n / d > 0
  {
  }

  lemma InUsableGrows(rs: seq<Region>, mapped: seq<Region>, m: Region)
    requires AllInUsable(rs, mapped)
    ensures AllInUsable(rs, mapped + [m])
  {
    forall i | 0 <= i < |rs| ensures InUsable(rs[i], mapped + [m]) {
      assert InUsable(rs[i], mapped);
      var k :| 0 <= k < |mapped| && Within(rs[i], mapped[k].Usable());
      assert (mapped + [m])[k] == mapped[k];
    }
  }

  /** What is in old mappings is apart from a new one. */
  lemma NewIsApart(rs: seq<Region>, mapped: seq<Region>, m: Region)
    requires AllInUsable(rs, mapped) && ApartFrom(mapped, m)
    requires forall i | 0 <= i < |mapped| :: mapped[i].size >= HEADER_SIZE
    ensures ApartFrom(rs, m)
  {
    forall i | 0 <= i < |rs| ensures Apart(rs[i], m) {
      assert InUsable(rs[i], mapped);
      var k :| 0 <= k < |mapped| && Within(rs[i], mapped[k].Usable());
      assert Apart(mapped[k], m);
    }
  }

  /** A byte of a block is in no other block and in no page header, and it is in mapped memory. */
  lemma BytesAreClear(blocks: seq<Region>, mapped: seq<Region>, i: nat, x: nat)
    requires AllApart(blocks) && AllInUsable(blocks, mapped) && AllApart(mapped) && i < |blocks|
    requires forall k | 0 <= k < |mapped| :: mapped[k].size >= HEADER_SIZE
    requires blocks[i].base <= x < blocks[i].End()
    ensures exists k :: 0 <= k < |mapped| && mapped[k].base <= x < mapped[k].End()
    ensures forall k | 0 <= k < |mapped| :: !(mapped[k].base <= x < mapped[k].base + HEADER_SIZE)
    ensures forall j | 0 <= j < |blocks| && j != i :: !(blocks[j].base <= x < blocks[j].End())
  {
    assert InUsable(blocks[i], mapped);
    var m :| 0 <= m < |mapped| && Within(blocks[i], mapped[m].Usable());
    assert mapped[m].base <= x < mapped[m].End();
    forall k | 0 <= k < |mapped| && k != m ensures Apart(mapped[k], mapped[m]) {
      assert if k < m then Apart(mapped[k], mapped[m]) else Apart(mapped[m], mapped[k]);
    }
    forall j | 0 <= j < |blocks| && j != i ensures Apart(blocks[j], blocks[i]) {
      assert if j < i then Apart(blocks[j], blocks[i]) else Apart(blocks[i], blocks[j]);
    }
  }

  /** A block cut from the front of what is free, and what is left of that. */
  lemma CutFrom(blocks: seq<Region>, mapped: seq<Region>, free: Region, bytes: nat)
    requires AllApart(blocks) && AllInUsable(blocks, mapped) && InUsable(free, mapped) && ApartFrom(blocks, free)
    requires bytes <= free.size
    ensures var block, rest := Region(free.base, bytes), Region(free.base + bytes, free.size - bytes);
            && AllApart(blocks + [block]) && AllInUsable(blocks + [block], mapped)
            && InUsable(rest, mapped) && ApartFrom(blocks + [block], rest)
  {
    var block, rest := Region(free.base, bytes), Region(free.base + bytes, free.size - bytes);
    var i :| 0 <= i < |mapped| && Within(free, mapped[i].Usable());
    assert Within(block, mapped[i].Usable()) && Within(rest, mapped[i].Usable());
    assert forall k | 0 <= k < |blocks| :: Apart(blocks[k], free);
  }

  function PagesOf(bytes: nat, pageSize: nat): nat
    requires pageSize > 0
  {
    (bytes + HEADER_SIZE + pageSize - 1) / pageSize
  }

  /** Page sizes are powers of two; in 32 bits just these divide 2^32. */
  predicate IsPageSize(n: nat) {
    HEADER_SIZE < n < UNSIGNED_LIMIT && UNSIGNED_LIMIT % n == 0
  }

  /** The size of some pages, in 32 bits. */
  function SizeOf(pages: nat, pageSize: nat): nat {
    pageSize * pages % UNSIGNED_LIMIT
  }

  /** The number of bytes that is asked of the kernel for a block. */
  function Asked(bytes: nat, pageSize: nat): nat
    requires pageSize > 0
  {
    SizeOf(PagesOf(bytes, pageSize), pageSize)
  }

  /** That product does not overflow. */
  predicate PagesFit(bytes: nat, pageSize: nat)
    requires pageSize > 0
  {
    pageSize * PagesOf(bytes, pageSize) < UNSIGNED_LIMIT
  }

  /** When it overflows, it is the size of one page, or 0. */
  lemma AskedIs(bytes: nat, pageSize: nat)
    requires 0 < bytes < UNSIGNED_LIMIT && IsPageSize(pageSize)
    ensures PagesFit(bytes, pageSize) ==> Asked(bytes, pageSize) == pageSize * PagesOf(bytes, pageSize) >= pageSize
    ensures PagesFit(bytes, pageSize) <==> bytes + HEADER_SIZE <= UNSIGNED_LIMIT - pageSize
    ensures !PagesFit(bytes, pageSize) ==>
              Asked(bytes, pageSize) == if bytes + HEADER_SIZE <= UNSIGNED_LIMIT then 0 else pageSize
  {
    var n, d := bytes + HEADER_SIZE, UNSIGNED_LIMIT / pageSize;
    PagesFor(n, pageSize);
    assert pageSize * d == UNSIGNED_LIMIT;
    AskedInPages(n, pageSize, PagesOf(bytes, pageSize), d);
  }

  lemma AskedInPages(n: nat, pageSize: nat, pages: nat, d: nat)
    requires pageSize * d == UNSIGNED_LIMIT && HEADER_SIZE < pageSize && pages > 0 && n < UNSIGNED_LIMIT + HEADER_SIZE
    requires pageSize * (pages - 1) < n <= pageSize * (pages - 1) + pageSize == pageSize * pages
    ensures pageSize * pages < UNSIGNED_LIMIT <==> n <= UNSIGNED_LIMIT - pageSize
    ensures pageSize * pages >= UNSIGNED_LIMIT ==>
              pageSize * pages == if n <= UNSIGNED_LIMIT then UNSIGNED_LIMIT else UNSIGNED_LIMIT + pageSize
  {
    Products(pageSize, pages, d - 1);
    Products(pageSize, d, pages);
    Products(pageSize, d + 1, pages);
    Products(pageSize, d + 2, pages);
    assert pageSize * (d - 1) == UNSIGNED_LIMIT - pageSize;
    assert pageSize * (d + 1) == UNSIGNED_LIMIT + pageSize && pageSize * (d + 2) == UNSIGNED_LIMIT + 2 * pageSize;
  }

  /** Pages whose size is not 0 have at least one page's. */
  lemma SizeIsPages(pages: nat, pageSize: nat)
    requires IsPageSize(pageSize) && SizeOf(pages, pageSize) != 0
    ensures SizeOf(pages, pageSize) >= pageSize
  {
    var d := UNSIGNED_LIMIT / pageSize;
    var q, r := pages / d, pages % d;
    LimitInPages(pageSize);
    Distributes(pageSize, d, q, r);
    assert pageSize * pages == UNSIGNED_LIMIT * q + pageSize * r;
    Products(pageSize, r + 1, d);
    Remainder(pageSize * r, q);
    Products(pageSize, 1, r);
  }

  lemma Distributes(k: nat, d: nat, q: nat, r: nat)
    ensures k * (d * q + r) == k * d * q + k * r && k * (r + 1) == k * r + k
  {
  }

  lemma Remainder(r: nat, q: nat)
    requires r < UNSIGNED_LIMIT
    ensures (UNSIGNED_LIMIT * q + r) % UNSIGNED_LIMIT == r
  {
  }

  lemma Products(k: nat, m: int, n: int)
    ensures m <= n ==> k * m <= k * n
  {
  }

  /** What the arithmetic of Alloc makes of the last page: the part of it that is taken. */
  function OffsetFor(bytes: nat, pageSize: nat): nat
    requires 0 < bytes < UNSIGNED_LIMIT && IsPageSize(pageSize)
  {
    Sub(pageSize, Sub(Asked(bytes, pageSize), bytes + HEADER_SIZE)) % pageSize
  }

  /** And its place. */
  lemma LastPageIs(bytes: nat, pageSize: nat) returns (start: nat)
    requires 0 < bytes < UNSIGNED_LIMIT && IsPageSize(pageSize) && Asked(bytes, pageSize) != 0
    ensures start == SizeOf(PagesOf(bytes, pageSize) - 1, pageSize)
    ensures PagesFit(bytes, pageSize) ==>
              && Asked(bytes, pageSize) == start + pageSize && start < bytes + HEADER_SIZE <= start + pageSize
              && OffsetFor(bytes, pageSize) == if bytes + HEADER_SIZE == start + pageSize then 0 else bytes + HEADER_SIZE - start
    ensures !PagesFit(bytes, pageSize) ==>
              && Asked(bytes, pageSize) == pageSize && start == 0
              && OffsetFor(bytes, pageSize) == bytes + HEADER_SIZE - UNSIGNED_LIMIT > 0
  {
    var used, pages := bytes + HEADER_SIZE, PagesOf(bytes, pageSize);
    start := SizeOf(pages - 1, pageSize);
    AskedIs(bytes, pageSize);
    PagesFor(used, pageSize);
    LimitInPages(pageSize);
    AskedInPages(used, pageSize, pages, UNSIGNED_LIMIT / pageSize);
    var product, before := pageSize * pages, pageSize * (pages - 1);
    if PagesFit(bytes, pageSize) {
      OffsetInLast(product, used, pageSize);
    } else {
      assert before == UNSIGNED_LIMIT;
      assert Sub(pageSize, Sub(pageSize, used)) == used;
      OverLimit(used - UNSIGNED_LIMIT, pageSize);
    }
  }

  lemma LimitInPages(pageSize: nat)
    requires IsPageSize(pageSize)
    ensures pageSize * (UNSIGNED_LIMIT / pageSize) == UNSIGNED_LIMIT
  {
  }

  lemma OffsetInLast(product: nat, used: nat, pageSize: nat)
    requires used <= product < used + pageSize && product < UNSIGNED_LIMIT && 0 < pageSize <= product
    ensures Sub(pageSize, Sub(product, used)) % pageSize == if used == product then 0 else used - (product - pageSize)
  {
    var x := pageSize - (product - used);
    assert Sub(pageSize, Sub(product, used)) == x;
    if x == pageSize { Quotient(x, pageSize, 1, 0); } else { Quotient(x, pageSize, 0, x); }
  }

  lemma OverLimit(r: nat, pageSize: nat)
    requires IsPageSize(pageSize) && r < pageSize
    ensures (UNSIGNED_LIMIT + r) % pageSize == r
  {
    var n, d := UNSIGNED_LIMIT + r, UNSIGNED_LIMIT / pageSize;
    LimitInPages(pageSize);
    Quotient(n, pageSize, d, r);
  }

  lemma Quotient(n: nat, k: nat, d: nat, r: nat)
    requires r < k && n == k * d + r
    ensures n % k == r
  {
    var e := n / k;
    assert n == k * e + n % k && k * (d + 1) == k * d + k && k * (e + 1) == k * e + k;
    Products(k, d + 1, e);
    Products(k, e + 1, d);
    assert e == d;
  }

  /** A block behind the header of new pages lies in them exactly if the size asked for did not overflow. */
  lemma InsideIffFit(bytes: nat, pageSize: nat, a: nat)
    requires 0 < bytes < UNSIGNED_LIMIT && IsPageSize(pageSize) && Asked(bytes, pageSize) != 0
    ensures Within(Region(a + HEADER_SIZE, bytes), Region(a, Asked(bytes, pageSize))) <==> PagesFit(bytes, pageSize)
  {
    var start := LastPageIs(bytes, pageSize);
  }

  /** A block behind the header of new pages is in no old mapping, and if it ends behind them not in the new one either. */
  lemma NotUsable(block: Region, mapped: seq<Region>, m: Region)
    requires ApartFrom(mapped, m) && block.base == m.base + HEADER_SIZE < m.End() < block.End()
    ensures !InUsable(block, mapped + [m])
  {
    forall i | 0 <= i < |mapped| ensures !Within(block, (mapped + [m])[i].Usable()) {
      assert Apart(mapped[i], m);
    }
    assert !Within(block, (mapped + [m])[|mapped|].Usable());
  }

  class PageAllocator {
    const pageSize: nat
    const memory: array<Byte>
    var last: nat
    var currentPage: nat
    var pageOffset: nat
    /** What was mapped, and every block that was handed out. */
    ghost var mapped: seq<Region>
    ghost var blocks: seq<Region>

    constructor (pageSize: nat, memory: array<Byte>)
      requires IsPageSize(pageSize) && memory.Length <= ADDRESS_LIMIT
      ensures Valid() && mapped == [] && blocks == [] && this.pageSize == pageSize && this.memory == memory
      ensures currentPage == 0
    {
      this.pageSize, this.memory := pageSize, memory;
      last, currentPage, pageOffset := 0, 0, 0;
      mapped, blocks := [], [];
    }

    /** The rest of the current page. */
    ghost function Free(): Region
      requires pageOffset <= pageSize
      reads this
    {
      Region(currentPage + pageOffset, pageSize - pageOffset)
    }

    /** What was mapped is apart, and can be found. */
    ghost predicate Linked()
      reads this, memory
    {
      && IsPageSize(pageSize) && memory.Length <= ADDRESS_LIMIT
      && AreMappings(mapped, pageSize, memory.Length) && Chained(memory[..], last, mapped, pageSize)
    }

    /** Blocks do not overlap, and lie in mapped pages clear of every page header. */
    ghost predicate Valid()
      reads this, memory
    {
      && Linked() && pageOffset < pageSize && AllApart(blocks) && AllInUsable(blocks, mapped)
      && (currentPage != 0 ==> pageOffset > 0 && InUsable(Free(), mapped) && ApartFrom(blocks, Free()))
    }

    /** The kernel can map so many bytes at that address. */
    ghost predicate CanMap(size: nat, kernel: nat)
      reads this
    {
      ApartFrom(mapped, Region(kernel, size)) && kernel + size <= memory.Length
    }

    predicate HasRoom(bytes: nat)
      requires pageOffset <= pageSize
      reads this
    {
      currentPage != 0 && pageSize - pageOffset >= bytes
    }

    /** If the kernel is asked for pages to make room for so many bytes, it maps them in memory that is not in use. */
    ghost predicate KernelMaps(bytes: nat, kernel: nat)
      requires IsPageSize(pageSize) && pageOffset <= pageSize
      reads this
    {
      bytes > 0 && !HasRoom(bytes) && kernel != 0 && Asked(bytes, pageSize) != 0 ==> CanMap(Asked(bytes, pageSize), kernel)
    }

    /** There is a block for so many bytes in the current page, or in pages whose size does not overflow. */
    predicate Serves(bytes: nat, kernel: nat)
      requires IsPageSize(pageSize) && pageOffset <= pageSize
      reads this
    {
      bytes > 0 && (HasRoom(bytes) || (kernel != 0 && PagesFit(bytes, pageSize)))
    }

    /** Map pages at the address that the kernel gives, which is 0 if it gives none. It gives none of size 0. */
    method GetNPages(numPages: nat, kernel: nat) returns (a: nat)
      requires Linked() && numPages < UNSIGNED_LIMIT
      requires kernel != 0 && SizeOf(numPages, pageSize) != 0 ==> CanMap(SizeOf(numPages, pageSize), kernel)
      modifies `last, `mapped, memory
      ensures Linked() && a == if SizeOf(numPages, pageSize) == 0 then 0 else kernel
      ensures mapped == if a == 0 then old(mapped) else old(mapped) + [Region(a, SizeOf(numPages, pageSize))]
      ensures if a == 0 then memory[..] == old(memory[..]) else OnlyWritten(old(memory[..]), memory[..], a, a + HEADER_SIZE)
    {
      var size := SizeOf(numPages, pageSize);
      if size == 0 || kernel == 0 { return 0; }
      a := kernel;
      SizeIsPages(numPages, pageSize);
      ghost var before, m := memory[..], Region(kernel, size);
      LastFits(before, last, mapped, pageSize);
      PutLittle(memory, kernel, last, 8);
      ghost var between := memory[..];
      PutLittle(memory, kernel + 8, numPages, 4);
      NewHeader(before, between, memory[..], last, mapped, pageSize, m, numPages);
      last := kernel;
      mapped := mapped + [m];
    }

    /** A block from the current page, if it has room. */
    method AllocHere(bytes: nat) returns (ret: nat)
      requires Valid() && 0 < bytes && HasRoom(bytes)
      modifies `pageOffset, `currentPage, `blocks
      ensures Valid() && ret != 0 && blocks == old(blocks) + [Region(ret, bytes)]
    {
      ret := currentPage + pageOffset;
      ghost var free := Free();
      CutFrom(blocks, mapped, free, bytes);
      pageOffset := pageOffset + bytes;
      blocks := blocks + [Region(ret, bytes)];
      if pageOffset == pageSize {
        pageOffset := 0;
        currentPage := 0;
      } else {
        assert Free() == Region(free.base + bytes, free.size - bytes);
      }
    }

    /** `kernel` is where the kernel maps pages if it is asked to, or 0 if it does not. No block that was handed out, and no
        page header, is touched. The allocator is as good as before unless the size to map overflows and is not 0. */
    method Alloc(bytes: nat, kernel: nat) returns (ret: nat)
      requires Valid() && bytes < UNSIGNED_LIMIT && KernelMaps(bytes, kernel)
      modifies this, memory
      ensures ret != 0 && Valid() <==> old(Serves(bytes, kernel))
      ensures ret == 0 <==> bytes == 0 || (!old(HasRoom(bytes)) && (kernel == 0 || Asked(bytes, pageSize) == 0))
      ensures blocks == old(blocks) + if ret == 0 then [] else [Region(ret, bytes)]
      ensures mapped == old(mapped)
                        + if ret == 0 || old(HasRoom(bytes)) then [] else [Region(kernel, Asked(bytes, pageSize))]
      ensures ret != 0 && !old(HasRoom(bytes)) ==>
                && ret == kernel + HEADER_SIZE
                && (Within(Region(ret, bytes), Region(kernel, Asked(bytes, pageSize))) <==> PagesFit(bytes, pageSize))
      ensures Kept(old(memory[..]), memory[..], old(mapped), old(blocks), -1)
      ensures Linked() && (Valid() <==> ret == 0 || old(HasRoom(bytes)) || PagesFit(bytes, pageSize))
      ensures ret == 0 ==> currentPage == old(currentPage) && pageOffset == old(pageOffset)
      ensures !Valid() ==> currentPage == kernel && pageOffset == bytes + HEADER_SIZE - UNSIGNED_LIMIT
    {
      if bytes == 0 { return 0; }
      if HasRoom(bytes) {
        ret := AllocHere(bytes);
        return;
      }
      ret := AllocPages(bytes, kernel);
      AskedIs(bytes, pageSize);
      if ret != 0 { InsideIffFit(bytes, pageSize, kernel); }
    }

    /** A block at the start of new pages, for which the current page is given up. */
    method AllocPages(bytes: nat, kernel: nat) returns (ret: nat)
      requires Valid() && 0 < bytes < UNSIGNED_LIMIT
      requires kernel != 0 && Asked(bytes, pageSize) != 0 ==> CanMap(Asked(bytes, pageSize), kernel)
      modifies this, memory
      ensures ret == if kernel == 0 || Asked(bytes, pageSize) == 0 then 0 else kernel + HEADER_SIZE
      ensures blocks == old(blocks) + if ret == 0 then [] else [Region(ret, bytes)]
      ensures mapped == old(mapped) + if ret == 0 then [] else [Region(kernel, Asked(bytes, pageSize))]
      ensures Kept(old(memory[..]), memory[..], old(mapped), old(blocks), -1)
      ensures Linked() && (Valid() <==> ret == 0 || PagesFit(bytes, pageSize))
      ensures ret == 0 ==> currentPage == old(currentPage) && pageOffset == old(pageOffset)
      ensures !Valid() ==> currentPage == kernel && pageOffset == bytes + HEADER_SIZE - UNSIGNED_LIMIT
    {
      ghost var before, m := memory[..], Region(kernel, Asked(bytes, pageSize));
      FewPages(bytes, pageSize);
      var pages := PagesOf(bytes, pageSize);
      var a := GetNPages(pages, kernel);
      if a == 0 {
        KeptSame(before, mapped, blocks, -1);
        return 0;
      }
      SizeIsPages(pages, pageSize);
      NewIsApart(blocks, old(mapped), m);
      HeaderKeeps(before, memory[..], m, old(mapped), blocks);
      ret := PlaceBlock(bytes, pages, a, old(mapped), m);
    }

    /** Put a block behind the header of the newest pages. */
    method PlaceBlock(bytes: nat, pages: nat, a: nat, ghost older: seq<Region>, ghost m: Region) returns (ret: nat)
      requires Linked() && 0 < bytes < UNSIGNED_LIMIT && pages == PagesOf(bytes, pageSize) > 0 && Asked(bytes, pageSize) != 0
      requires mapped == older + [m] && m == Region(a, Asked(bytes, pageSize)) && ApartFrom(older, m)
      requires AllApart(blocks) && AllInUsable(blocks, older) && ApartFrom(blocks, m) && a != 0
      modifies `pageOffset, `currentPage, `blocks
      ensures ret == a + HEADER_SIZE && blocks == old(blocks) + [Region(ret, bytes)] && Linked()
      ensures Valid() <==> PagesFit(bytes, pageSize)
      ensures !Valid() ==> currentPage == a && pageOffset == bytes + HEADER_SIZE - UNSIGNED_LIMIT
    {
      ghost var was := blocks;
      ghost var start := LastPageIs(bytes, pageSize);
      hide SizeOf, PagesOf, PagesFit;
      pageOffset := Sub(pageSize, Sub(SizeOf(pages, pageSize), bytes + HEADER_SIZE)) % pageSize;
      currentPage := if pageOffset != 0 then a + SizeOf(pages - 1, pageSize) else 0;
      ret := a + HEADER_SIZE;
      blocks := blocks + [Region(ret, bytes)];
      if PagesFit(bytes, pageSize) {
        InUsableGrows(was, older, m);
        FirstIsValid(was, Region(ret, bytes), m, start);
      } else {
        NotUsable(Region(ret, bytes), older, m);
        assert !InUsable(blocks[|was|], mapped);
      }
    }

    /** The first block of a new mapping, and what is left of its last page. */
    lemma FirstIsValid(was: seq<Region>, block: Region, m: Region, start: nat)
      requires Linked() && pageOffset < pageSize && mapped != [] && mapped[|mapped| - 1] == m && m.size == start + pageSize
      requires blocks == was + [block] && AllApart(was) && AllInUsable(was, mapped) && ApartFrom(was, m)
      requires block.base == m.base + HEADER_SIZE && block.size > 0 && block.End() <= m.End()
      requires currentPage == (if pageOffset == 0 then 0 else m.base + start)
      requires pageOffset != 0 ==> m.base + start + pageOffset == block.End()
      ensures Valid()
    {
      assert Within(block, m.Usable()) && InUsable(block, mapped);
      assert forall i | 0 <= i < |was| :: Apart(was[i], m);
      if currentPage != 0 { assert Within(Free(), m.Usable()) && InUsable(Free(), mapped); }
    }

    /** munmap every mapping, the newest first. */
    method FreeAll() returns (unmapped: seq<Region>)
      requires Linked()
      ensures |unmapped| == |mapped| && forall k | 0 <= k < |mapped| :: unmapped[k] == mapped[|mapped| - 1 - k]
    {
      unmapped := [];
      var cur := last;
      ghost var rest := mapped;
      while cur != 0
        invariant Chained(memory[..], cur, rest, pageSize)
        invariant |rest| + |unmapped| == |mapped| && rest == mapped[..|rest|]
        invariant forall k | 0 <= k < |unmapped| :: unmapped[k] == mapped[|mapped| - 1 - k]
        decreases |rest|
      {
        var next := Number(memory[cur..cur + 8]);
        assert memory[..][cur..cur + 8] == memory[cur..cur + 8] && memory[..][cur + 8..cur + 12] == memory[cur + 8..cur + 12];
        unmapped := unmapped + [Region(cur, SizeOf(Number(memory[cur + 8..cur + 12]), pageSize))];
        cur := next;
        rest := rest[..|rest| - 1];
      }
    }
  }

  /** Mappings of whole pages in memory, none of them at NULL, that do not overlap. */
  ghost predicate AreMappings(mapped: seq<Region>, pageSize: nat, length: nat) {
    && AllApart(mapped)
    && forall i | 0 <= i < |mapped| :: mapped[i].base != 0 && mapped[i].size >= pageSize && mapped[i].End() <= length
  }

  lemma LastFits(bytes: seq<Byte>, last: nat, mapped: seq<Region>, pageSize: nat)
    requires Chained(bytes, last, mapped, pageSize) && |bytes| <= ADDRESS_LIMIT
    ensures last < ADDRESS_LIMIT
  {
  }

  lemma FewPages(bytes: nat, pageSize: nat)
    requires 0 < bytes < UNSIGNED_LIMIT && IsPageSize(pageSize)
    ensures 0 < PagesOf(bytes, pageSize) < UNSIGNED_LIMIT
  {
    PagesFor(bytes + HEADER_SIZE, pageSize);
    var pages := PagesOf(bytes, pageSize);
    Products(pageSize, 0x1000_0000, pages - 1);
  }

  /** A header written in a new mapping is the head of the chain. */
  lemma NewHeader(before: seq<Byte>, between: seq<Byte>, after: seq<Byte>, last: nat, mapped: seq<Region>, pageSize: nat,
                  m: Region, numPages: nat)
    requires HEADER_SIZE < pageSize && AreMappings(mapped, pageSize, |before|) && Chained(before, last, mapped, pageSize)
    requires ApartFrom(mapped, m) && m.base != 0 && m.End() <= |before| && m.size == SizeOf(numPages, pageSize) >= pageSize
    requires last < ADDRESS_LIMIT && numPages < UNSIGNED_LIMIT
    requires Wrote(before, between, m.base, Little(last, 8)) && Wrote(between, after, m.base + 8, Little(numPages, 4))
    ensures OnlyWritten(before, after, m.base, m.base + HEADER_SIZE)
    ensures AreMappings(mapped + [m], pageSize, |before|) && Chained(after, m.base, mapped + [m], pageSize)
  {
    OnlyWrittenTwice(before, between, after, m.base, m.base + 8, m.base + 8, m.base + 12, m.base, m.base + HEADER_SIZE);
    HoldsStays(between, after, m.base + 8, m.base + 12, m.base, Little(last, 8));
    Limits();
    ReadsLittle(after, m.base, last, 8);
    ReadsLittle(after, m.base + 8, numPages, 4);
    forall i | 0 <= i < |mapped| ensures SameIn(before, after, HeaderOf(mapped[i])) {
      assert Apart(mapped[i], m);
      ApartIsSame(before, after, m.base, m.base + HEADER_SIZE, HeaderOf(mapped[i]));
    }
    ChainStays(before, after, last, mapped, pageSize);
    assert (mapped + [m])[..|mapped|] == mapped;
  }

  lemma HeaderKeeps(before: seq<Byte>, after: seq<Byte>, m: Region, mapped: seq<Region>, blocks: seq<Region>)
    requires OnlyWritten(before, after, m.base, m.base + HEADER_SIZE) && m.size >= HEADER_SIZE
    requires ApartFrom(mapped, m) && ApartFrom(blocks, m) && forall i | 0 <= i < |mapped| :: mapped[i].size >= HEADER_SIZE
    ensures Kept(before, after, mapped, blocks, -1)
  {
    forall i | 0 <= i < |mapped| ensures SameIn(before, after, HeaderOf(mapped[i])) {
      assert Apart(mapped[i], m);
      ApartIsSame(before, after, m.base, m.base + HEADER_SIZE, HeaderOf(mapped[i]));
    }
    forall i | 0 <= i < |blocks| ensures SameIn(before, after, blocks[i]) {
      assert Apart(blocks[i], m);
      ApartIsSame(before, after, m.base, m.base + HEADER_SIZE, blocks[i]);
    }
  }

  /** Every block is in memory. */
  lemma BlockFits(blocks: seq<Region>, mapped: seq<Region>, i: nat, pageSize: nat, length: nat)
    requires i < |blocks| && AllInUsable(blocks, mapped) && AreMappings(mapped, pageSize, length) && pageSize >= HEADER_SIZE
    ensures blocks[i].End() <= length
  {
    assert InUsable(blocks[i], mapped);
  }

  /** A client puts bytes into its block. */
  method PutInBlock(allocator: PageAllocator, at: nat, bs: seq<Byte>, ghost i: nat)
    requires allocator.Valid() && i < |allocator.blocks|
    requires allocator.blocks[i].base <= at && at + |bs| <= allocator.blocks[i].End()
    modifies allocator.memory
    ensures allocator.Valid() && Wrote(old(allocator.memory[..]), allocator.memory[..], at, bs)
    ensures Kept(old(allocator.memory[..]), allocator.memory[..], allocator.mapped, allocator.blocks, i)
  {
    ghost var before := allocator.memory[..];
    BlockFits(allocator.blocks, allocator.mapped, i, allocator.pageSize, allocator.memory.Length);
    PutBytes(allocator.memory, at, bs);
    ClientWrites(before, allocator.memory[..], at, at + |bs|, allocator.last, allocator.mapped, allocator.blocks, i,
                 allocator.pageSize);
  }

  // ---- Sizes that overflow

  /** Of a block of nearly 2^32 bytes one page is mapped, which has no room for it. */
  method BlockInOnePage() returns (allocator: PageAllocator, ret: nat)
    ensures fresh(allocator) && ret == 0x1010 && allocator.blocks == [Region(ret, 0xFFFF_FFFF)]
    ensures allocator.mapped == [Region(0x1000, 0x1000)] && !Within(allocator.blocks[0], allocator.mapped[0])
    ensures !allocator.Valid()
  {
    var memory := new Byte[0x2000];
    allocator := new PageAllocator(0x1000, memory);
    AskedIs(0xFFFF_FFFF, 0x1000);
    hide Asked, PagesFit;
    ret := allocator.Alloc(0xFFFF_FFFF, 0x1000);
  }

  /** Of one a little smaller nothing would be mapped, and the answer is null wherever the kernel has room. */
  method NoBlock(kernel: nat) returns (allocator: PageAllocator, ret: nat)
    ensures fresh(allocator) && ret == 0 && allocator.Valid() && allocator.mapped == []
  {
    var memory := new Byte[0];
    allocator := new PageAllocator(0x1000, memory);
    AskedIs(0xFFFF_FF00, 0x1000);
    hide Asked, PagesFit;
    ret := allocator.Alloc(0xFFFF_FF00, kernel);
  }
}
