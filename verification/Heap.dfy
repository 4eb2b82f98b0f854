/** The heap allocator: blocks carved from a region, and free lists per block size. */
module Heap {
  import opened Basics
  import Chains

  const SPAN := 0x1_0000_0000
  const ALIGN := 64
  const HEADER := 64
  const BASE_ALIGN := 16
  const MAGIC := 0x424C4D43
  const MAX_BUCKETS := 20

  datatype Header = Header(magic: nat, size: nat, next: Address)

  /** Where a block is: in use for a request of some size, on a bucket's free list, or
      freed although no bucket takes blocks of its size. */
  datatype Place = Live(requested: nat) | OnList(bucket: nat) | Lost

  /** The bucket sizes the heap is built with. */
  predicate Configured(sizes: seq<nat>) {
    |sizes| <= MAX_BUCKETS && forall b | 0 <= b < |sizes| :: 0 < sizes[b] <= SPAN / 2
  }

  const DEFAULT_SIZES: seq<nat> := [0x40, 0x400, 0x1000, 0x4000, 0x10000, 0x40000, 0x80000]

  lemma DefaultIsConfigured()
    ensures Configured(DEFAULT_SIZES)
  {
  }

  /** What a block of a size takes from the region, header included. */
  function Step(size: nat): nat {
    (HEADER + size + ALIGN - 1) / ALIGN * ALIGN
  }

  /** The size and the 64 bytes of the header, rounded up to a multiple of 64. */
  lemma StepBounds(size: nat)
    ensures Step(size) % 64 == 0 && 64 + size <= Step(size) < 64 + size + 64
    ensures Step(size) == 64 + (size + 63) / 64 * 64
  {
  }

  /** The same in 32-bit arithmetic. */
  function WrappedStep(size: nat): nat {
    (HEADER + size + ALIGN - 1) % SPAN / ALIGN * ALIGN
  }

  /** Sizes for which that arithmetic wraps to a block without room. */
  predicate Wraps(size: nat) { size > SPAN - ALIGN }

  lemma WrappedStepIsStep(size: nat)
    requires size < 0x1_0000_0000
    ensures size <= 0xFFFF_FF80 ==> WrappedStep(size) == Step(size)
    ensures 0xFFFF_FF80 < size <= 0xFFFF_FFC0 ==> WrappedStep(size) == 0
    ensures 0xFFFF_FFC0 < size ==> WrappedStep(size) == 64
    ensures Wraps(size) <==> 0xFFFF_FFC0 < size
  {
  }

  type Headers = map<Address, Header>

  function End(headers: Headers, a: Address): Address
    requires a in headers
  {
    a + Step(headers[a].size)
  }

  lemma AlignedAlike(a: nat, b: nat)
    requires a % ALIGN == b % ALIGN
    ensures (a + HEADER) % ALIGN == b % ALIGN
  {
  }

  /** One block: aligned as the region is, inside it, followed by another block or by
      the part that was never used. */
  ghost predicate Carved(headers: Headers, base: Address, next: Address, a: Address)
    requires a in headers
  {
    && base <= a && a % ALIGN == base % ALIGN
    && (End(headers, a) == next || (End(headers, a) in headers && End(headers, a) < next))
  }

  ghost predicate Apart(headers: Headers, a: Address, b: Address)
    requires a in headers && b in headers
  {
    End(headers, a) <= b || End(headers, b) <= a
  }

  /** The blocks tile the used part of the region, from base to next. */
  ghost predicate Tiled(headers: Headers, base: Address, next: Address) {
    && next % ALIGN == base % ALIGN && base <= next
    && (base == next || base in headers)
    && (forall a | a in headers :: Carved(headers, base, next, a))
    && (forall a, b | a in headers && b in headers && a != b :: Apart(headers, a, b))
  }

  lemma TiledAligned(headers: Headers, base: Address, next: Address, a: Address)
    requires Tiled(headers, base, next) && a in headers
    ensures a % ALIGN == base % ALIGN
  {
    hide Step, Apart;
    assert Carved(headers, base, next, a);
  }

  /** The links of the free lists. */
  ghost function Links(headers: Headers): map<Address, Address> {
    map a | a in headers :: headers[a].next
  }

  lemma Relinked(headers: Headers, a: Address, h: Header)
    ensures Links(headers[a := h]) == Links(headers)[a := h.next]
  {
  }

  /** A free list: linked from its head, ending with NULL. */
  ghost predicate FreeList(headers: Headers, head: Address, s: seq<Address>) {
    Chains.Chained(Links(headers), NULL, head, s)
  }

  /** A block is where its place says, and only there. */
  ghost predicate PlaceRight(headers: Headers, place: map<Address, Place>, lists: seq<seq<Address>>, sizes: seq<nat>,
                             a: Address)
    requires a in headers && a in place && |lists| == |sizes|
  {
    && a != NULL && headers[a].magic == MAGIC
    && (forall b | 0 <= b < |lists| :: a in lists[b] <==> place[a] == OnList(b))
    && match place[a]
       case Live(requested) => requested <= headers[a].size
       case OnList(b) => b < |sizes| && headers[a].size == sizes[b]
       case Lost => headers[a].size !in sizes
  }

  ghost predicate Placed(headers: Headers, place: map<Address, Place>, lists: seq<seq<Address>>, sizes: seq<nat>) {
    && place.Keys == headers.Keys && |lists| == |sizes|
    && (forall a | a in headers :: PlaceRight(headers, place, lists, sizes, a))
    && (forall b | 0 <= b < |lists| :: Distinct(lists[b]))
  }

  /** memcpy. */
  function Copied(memory: seq<Byte>, to: Address, from: Address, n: nat): (r: seq<Byte>)
    ensures |r| == |memory|
  {
    seq(|memory|, a requires 0 <= a < |memory| =>
      if to <= a < to + n && from + (a - to) < |memory| then memory[from + (a - to)] else memory[a])
  }

  /** The first bucket from b on whose blocks are large enough. */
  function Fitting(sizes: seq<nat>, n: nat, b: nat): (r: nat)
    requires b <= |sizes|
    ensures b <= r <= |sizes| && (r < |sizes| ==> n <= sizes[r])
    decreases |sizes| - b
  {
    if b == |sizes| || n <= sizes[b] then b else Fitting(sizes, n, b + 1)
  }

  /** Only one bucket is the first that is large enough. */
  lemma FittingIs(sizes: seq<nat>, n: nat, b: nat)
    requires b <= |sizes| && (b < |sizes| ==> n <= sizes[b]) && forall c | 0 <= c < b :: sizes[c] < n
    ensures Fitting(sizes, n, 0) == b && Rounded(sizes, n) == if b < |sizes| then sizes[b] else n
  {
    FittingFrom(sizes, n, b, 0);
  }

  lemma {:induction false} FittingFrom(sizes: seq<nat>, n: nat, b: nat, c: nat)
    requires c <= b <= |sizes| && (b < |sizes| ==> n <= sizes[b]) && forall d | c <= d < b :: sizes[d] < n
    ensures Fitting(sizes, n, c) == b
    decreases b - c
  {
    if c < b {
      FittingFrom(sizes, n, b, c + 1);
    }
  }

  /** The size a request is rounded up to. */
  function Rounded(sizes: seq<nat>, n: nat): (r: nat)
    ensures n <= r
  {
    var b := Fitting(sizes, n, 0);
    if b < |sizes| then sizes[b] else n
  }

  // ---------- what one step does to the blocks and the lists ----------

  /** The same blocks, of the same sizes. */
  ghost predicate SameBlocks(headers: Headers, after: Headers) {
    after.Keys == headers.Keys && forall c | c in headers :: after[c].size == headers[c].size
  }

  lemma SameIsCarved(headers: Headers, after: Headers, base: Address, next: Address, c: Address)
    requires SameBlocks(headers, after) && c in headers && Carved(headers, base, next, c)
    ensures Carved(after, base, next, c)
  {
    hide Step;
  }

  lemma SameIsApart(headers: Headers, after: Headers, c: Address, d: Address)
    requires SameBlocks(headers, after) && c in headers && d in headers && Apart(headers, c, d)
    ensures Apart(after, c, d)
  {
    hide Step;
  }

  lemma RelinkedIsTiled(headers: Headers, base: Address, next: Address, a: Address, link: Address)
    requires Tiled(headers, base, next) && a in headers
    ensures Tiled(headers[a := headers[a].(next := link)], base, next)
  {
    hide Carved, Apart;
    var after := headers[a := headers[a].(next := link)];
    assert SameBlocks(headers, after);
    hide SameBlocks;
    forall c | c in after
      ensures Carved(after, base, next, c)
    {
      SameIsCarved(headers, after, base, next, c);
    }
    forall c, d | c in after && d in after && c != d
      ensures Apart(after, c, d)
    {
      SameIsApart(headers, after, c, d);
    }
  }

  lemma NextIsFree(headers: Headers, base: Address, next: Address)
    requires Tiled(headers, base, next)
    ensures next !in headers
  {
    hide Step;
    if next in headers {
      StepBounds(headers[next].size);
    }
    assert next in headers ==> Carved(headers, base, next, next);
  }

  /** A block put at the end of the used part. */
  ghost predicate Extended(headers: Headers, after: Headers, next: Address, size: nat) {
    && next !in headers && after.Keys == headers.Keys + {next} && after[next] == Header(MAGIC, size, NULL)
    && forall a | a in headers :: after[a] == headers[a]
  }

  lemma ExtendedIsCarved(headers: Headers, after: Headers, base: Address, next: Address, size: nat, c: Address)
    requires Tiled(headers, base, next) && Extended(headers, after, next, size) && c in after
    ensures Carved(after, base, next + Step(size), c)
  {
    hide Step;
    StepBounds(size);
    assert c != next ==> Carved(headers, base, next, c);
  }

  lemma ExtendedIsApart(headers: Headers, after: Headers, base: Address, next: Address, size: nat, c: Address,
                        d: Address)
    requires Tiled(headers, base, next) && Extended(headers, after, next, size)
    requires c in after && d in after && c != d
    ensures Apart(after, c, d)
  {
    hide Step;
    if c == next {
      assert Carved(headers, base, next, d);
    } else if d == next {
      assert Carved(headers, base, next, c);
    } else {
      assert Apart(headers, c, d);
    }
  }

  lemma StepAligned(next: Address, size: nat, base: Address)
    requires next % ALIGN == base % ALIGN && base <= next
    ensures (next + Step(size)) % ALIGN == base % ALIGN && base <= next + Step(size)
  {
    hide Step;
    StepBounds(size);
  }

  lemma CarvedIsTiled(headers: Headers, base: Address, next: Address, size: nat)
    requires Tiled(headers, base, next)
    ensures next !in headers
    ensures Tiled(headers[next := Header(MAGIC, size, NULL)], base, next + Step(size))
  {
    NextIsFree(headers, base, next);
    var after := headers[next := Header(MAGIC, size, NULL)];
    assert Extended(headers, after, next, size);
    ExtendedIsTiled(headers, after, base, next, size);
  }

  lemma ExtendedIsTiled(headers: Headers, after: Headers, base: Address, next: Address, size: nat)
    requires Tiled(headers, base, next) && Extended(headers, after, next, size)
    ensures Tiled(after, base, next + Step(size))
  {
    hide Step, Carved, Apart;
    StepAligned(next, size, base);
    assert base in after;
    hide Extended;
    forall c | c in after
      ensures Carved(after, base, next + Step(size), c)
    {
      ExtendedIsCarved(headers, after, base, next, size, c);
    }
    forall c, d | c in after && d in after && c != d
      ensures Apart(after, c, d)
    {
      ExtendedIsApart(headers, after, base, next, size, c, d);
    }
  }

  lemma FreeElsewhere(headers: Headers, head: Address, s: seq<Address>, a: Address, h: Header)
    requires FreeList(headers, head, s) && a !in s
    ensures FreeList(headers[a := h], head, s)
  {
    Relinked(headers, a, h);
    Chains.Elsewhere(Links(headers), NULL, head, s, a, h.next);
  }

  lemma FreeTail(headers: Headers, head: Address, s: seq<Address>)
    requires FreeList(headers, head, s) && Distinct(s) && s != []
    ensures head == s[0] != NULL && head in headers
    ensures FreeList(headers[head := headers[head].(next := NULL)], headers[head].next, s[1..])
  {
    Chains.Tail(Links(headers), NULL, head, s);
    Relinked(headers, head, headers[head].(next := NULL));
  }

  lemma FreePush(headers: Headers, head: Address, s: seq<Address>, a: Address)
    requires FreeList(headers, head, s) && a != NULL && a in headers && a !in s
    ensures FreeList(headers[a := headers[a].(next := head)], a, [a] + s)
  {
    Chains.Push(Links(headers), NULL, head, s, a);
    Relinked(headers, a, headers[a].(next := head));
  }

  /** Moving a block from one place to another. */
  ghost predicate Moved(headers: Headers, after: Headers, place: map<Address, Place>, lists: seq<seq<Address>>,
                        after2: seq<seq<Address>>, a: Address, to: Place)
    requires a in after && |lists| == |after2|
  {
    && after.Keys == headers.Keys + {a}
    && (forall c | c in headers :: after[c].size == headers[c].size && after[c].magic == headers[c].magic)
    && a != NULL && after[a].magic == MAGIC
    && (forall b | 0 <= b < |lists| :: SameOthers(lists[b], after2[b], a))
    && (forall b | 0 <= b < |lists| :: a in after2[b] <==> to == OnList(b))
  }

  ghost predicate SameOthers(s: seq<Address>, t: seq<Address>, a: Address) {
    forall c | c != a :: c in t <==> c in s
  }

  lemma MovedIsPlaced(headers: Headers, after: Headers, place: map<Address, Place>, lists: seq<seq<Address>>,
                      after2: seq<seq<Address>>, sizes: seq<nat>, a: Address, to: Place)
    requires Placed(headers, place, lists, sizes) && a in after && |lists| == |after2|
    requires Moved(headers, after, place, lists, after2, a, to)
    requires forall b | 0 <= b < |after2| :: Distinct(after2[b])
    requires match to
             case Live(requested) => requested <= after[a].size
             case OnList(b) => b < |sizes| && after[a].size == sizes[b]
             case Lost => after[a].size !in sizes
    ensures Placed(after, place[a := to], after2, sizes)
  {
    forall c | c in after
      ensures PlaceRight(after, place[a := to], after2, sizes, c)
    {
      assert c != a ==> PlaceRight(headers, place, lists, sizes, c);
    }
  }

  lemma NotAHeader(headers: Headers, head: Address, s: seq<Address>, a: Address)
    requires FreeList(headers, head, s) && a !in headers
    ensures a !in s
  {
    Chains.OnlyLinks(Links(headers), NULL, head, s, a);
  }

  lemma EmptyIffNull(headers: Headers, head: Address, s: seq<Address>)
    requires FreeList(headers, head, s)
    ensures head == NULL <==> s == []
  {
    Chains.EmptyIffNil(Links(headers), NULL, head, s);
  }

  function Listed(lists: seq<seq<Address>>, b: nat, a: Address): (r: seq<seq<Address>>)
    requires b < |lists|
  {
    lists[b := [a] + lists[b]]
  }

  lemma PlacedAt(headers: Headers, place: map<Address, Place>, lists: seq<seq<Address>>, sizes: seq<nat>, a: Address)
    requires Placed(headers, place, lists, sizes) && a in place
    ensures a in headers && PlaceRight(headers, place, lists, sizes, a)
  {
  }

  ghost predicate AllFree(headers: Headers, heads: seq<Address>, lists: seq<seq<Address>>) {
    |heads| == |lists| && forall b | 0 <= b < |lists| :: FreeList(headers, heads[b], lists[b])
  }

  /** Taking the first block off list b. */
  lemma PopKeeps(headers: Headers, heads: seq<Address>, place: map<Address, Place>, lists: seq<seq<Address>>,
                 sizes: seq<nat>, b: nat, requested: nat)
    requires Placed(headers, place, lists, sizes) && AllFree(headers, heads, lists)
    requires b < |sizes| && heads[b] != NULL && requested <= sizes[b]
    ensures lists[b] != [] && heads[b] == lists[b][0] && heads[b] in place && place[heads[b]] == OnList(b)
            && heads[b] in headers
    ensures headers[heads[b]].size == sizes[b]
    ensures var a := heads[b];
            var after, rest := headers[a := headers[a].(next := NULL)], lists[b := lists[b][1..]];
            && AllFree(after, heads[b := headers[a].next], rest)
            && Placed(after, place[a := Live(requested)], rest, sizes)
  {
    var a := heads[b];
    assert FreeList(headers, a, lists[b]);
    FreeTail(headers, a, lists[b]);
    assert a in lists[b] && PlaceRight(headers, place, lists, sizes, a);
    var after, rest := headers[a := headers[a].(next := NULL)], lists[b := lists[b][1..]];
    forall c | 0 <= c < |lists| && c != b
      ensures FreeList(after, heads[c], lists[c])
    {
      FreeElsewhere(headers, heads[c], lists[c], a, after[a]);
    }
    assert lists[b] == [a] + rest[b];
    MovedIsPlaced(headers, after, place, lists, rest, sizes, a, Live(requested));
  }

  /** Putting a block in use on list b. */
  lemma PushKeeps(headers: Headers, heads: seq<Address>, place: map<Address, Place>, lists: seq<seq<Address>>,
                  sizes: seq<nat>, b: nat, a: Address)
    requires Placed(headers, place, lists, sizes) && AllFree(headers, heads, lists)
    requires b < |sizes| && a in place && place[a].Live? && a != NULL && headers[a].size == sizes[b]
    ensures var after, longer := headers[a := headers[a].(next := heads[b])], Listed(lists, b, a);
            && AllFree(after, heads[b := a], longer)
            && Placed(after, place[a := OnList(b)], longer, sizes)
  {
    assert PlaceRight(headers, place, lists, sizes, a);
    var after, longer := headers[a := headers[a].(next := heads[b])], Listed(lists, b, a);
    FreePush(headers, heads[b], lists[b], a);
    forall c | 0 <= c < |lists| && c != b
      ensures FreeList(after, heads[c], lists[c])
    {
      FreeElsewhere(headers, heads[c], lists[c], a, after[a]);
    }
    MovedIsPlaced(headers, after, place, lists, longer, sizes, a, OnList(b));
  }

  class HeapAllocator {
    /** The data bytes of all blocks, and their headers, by address. */
    var memory: seq<Byte>
    var headers: Headers

    var next: Address
    var limit: Address
    var reserve: nat
    const sizes: seq<nat>
    const freeList: array<Address>

    ghost var base: Address
    ghost var place: map<Address, Place>
    ghost var lists: seq<seq<Address>>

    ghost predicate Shape()
      reads this`memory, this`next, this`limit, this`reserve, this`base
    {
      && |memory| == SPAN && Configured(sizes) && freeList.Length == |sizes|
      && (base == NULL <==> next == NULL) && next <= limit < SPAN && reserve <= limit
    }

    ghost predicate FreeLists()
      reads this`headers, this`lists, freeList
    {
      |lists| == |sizes| && AllFree(headers, freeList[..], lists)
    }

    /** Every block is where its place says, and the free lists are well linked. */
    ghost predicate ListsValid()
      reads this, freeList
    {
      Shape() && Placed(headers, place, lists, sizes) && FreeLists()
    }

    ghost predicate Valid()
      reads this, freeList
    {
      ListsValid() && Tiled(headers, base, next)
    }

    constructor (sizes: seq<nat>)
      requires Configured(sizes)
      ensures Valid() && next == NULL && headers == map[] && this.sizes == sizes && fresh(freeList)
    {
      this.sizes := sizes;
      memory := seq(SPAN, _ => 0);
      headers := map[];
      next, limit, reserve := NULL, NULL, 0;
      freeList := new Address[|sizes|](_ => NULL);
      base, place, lists := NULL, map[], seq(|sizes|, _ => []);
    }

    method Setup(base: Address, size: nat, reserve: nat)
      requires Valid() && next == NULL && headers == map[]
      requires base != NULL && base % BASE_ALIGN == 0 && base + size < SPAN && reserve <= base + size
      modifies this`next, this`limit, this`reserve, this`base
      ensures Valid() && next == this.base == base && limit == base + size && this.reserve == reserve
    {
      next := base;
      limit := base + size;
      this.reserve := reserve;
      this.base := base;
    }

    lemma HeadOfList(b: nat)
      requires FreeLists() && b < |sizes| && freeList.Length == |sizes|
      ensures b < |lists| && (freeList[b] == NULL <==> lists[b] == [])
    {
      EmptyIffNull(headers, freeList[..][b], lists[b]);
    }

    /** Takes the first block off a bucket's free list. */
    method TakeFirst(b: nat, requested: nat) returns (header: Address)
      requires Valid() && b < |sizes| && freeList[b] != NULL && requested <= sizes[b]
      modifies this`headers, this`place, this`lists, freeList
      ensures Valid()
      ensures old(lists[b]) != [] && header == old(lists[b])[0] && header in old(place)
              && old(place)[header] == OnList(b)
      ensures lists == old(lists)[b := old(lists[b])[1..]]
      ensures place == old(place)[header := Live(requested)]
      ensures header in headers && headers[header].size == sizes[b] && SameSizes(old(headers), headers)
    {
      hide Tiled, Placed, AllFree;
      PopKeeps(headers, freeList[..], place, lists, sizes, b, requested);
      header := freeList[b];
      RelinkedIsTiled(headers, base, next, header, NULL);
      ghost var heads := freeList[..];
      freeList[b] := headers[header].next;
      assert freeList[..] == heads[b := headers[header].next];
      headers := headers[header := headers[header].(next := NULL)];
      lists := lists[b := lists[b][1..]];
      place := place[header := Live(requested)];
    }

    /** Carves a new block from the unused part of the region. A block for a size that
        wraps has no room for its data, and the next block will overlap it. */
    method Carve(size: nat, requested: nat, nextBlock: Address) returns (header: Address)
      requires Valid() && next != NULL && requested <= size < SPAN
      requires nextBlock == next + WrappedStep(size) && next < nextBlock <= limit
      modifies this`headers, this`place, this`next
      ensures ListsValid() && (Valid() <==> !Wraps(size))
      ensures header == old(next) && next == nextBlock
      ensures header !in old(place) && place == old(place)[header := Live(requested)]
      ensures header in headers && headers[header].size == size && SameSizes(old(headers), headers)
    {
      hide Tiled, Step;
      StepBounds(size);
      ghost var was := headers;
      WrappedStepIsStep(size);
      CarvedIsTiled(headers, base, next, size);
      header := next;
      next := nextBlock;
      headers := headers[header := Header(MAGIC, size, NULL)];
      forall c | 0 <= c < |sizes|
        ensures FreeList(headers, freeList[c], lists[c]) && header !in lists[c]
      {
        assert FreeList(was, freeList[..][c], lists[c]);
        NotAHeader(was, freeList[c], lists[c], header);
        FreeElsewhere(was, freeList[c], lists[c], header, headers[header]);
      }
      MovedIsPlaced(was, headers, place, lists, lists, sizes, header, Live(requested));
      place := place[header := Live(requested)];
      if Wraps(size) {
        NoRoom(headers, base, next, header);
      }
    }

    /** Whether a block can be reused for a request. */
    ghost predicate Reusable(n: nat)
      reads this`lists
    {
      var b := Fitting(sizes, n, 0);
      b < |sizes| && b < |lists| && lists[b] != []
    }

    /** When a request succeeds. */
    ghost predicate HasRoom(n: nat)
      reads this`next, this`limit, this`reserve, this`lists
    {
      && next != NULL
      && (Reusable(n) || next + (if Wraps(n) then HEADER else Step(Rounded(sizes, n))) <= limit - reserve)
    }

    /** The same by the first bucket large enough, if there is one. */
    lemma RoomByBucket(n: nat, b: nat)
      requires b <= |sizes| && (forall c | 0 <= c < b :: sizes[c] < n) && (b < |sizes| ==> n <= sizes[b])
      ensures HasRoom(n) <==>
              && next != 0
              && ((b < |sizes| && b < |lists| && lists[b] != [])
                  || next + 64 + (if n > 0xFFFF_FFC0 then 0
                                  else ((if b < |sizes| then sizes[b] else n) + 63) / 64 * 64) <= limit - reserve)
    {
      FittingIs(sizes, n, b);
      StepBounds(Rounded(sizes, n));
      hide Fitting, Rounded, Step;
    }

    /** 0 if the heap was not set up or is full; a failure uses up the reserve. The size is
        that of the first bucket that is large enough, if there is one, and that bucket's
        first free block is used before a new one is carved. */
    method Allocate(nSize: nat) returns (block: Address, ghost bucket: nat)
      requires Valid() && nSize < SPAN
      modifies this`headers, this`next, this`reserve, this`place, this`lists, freeList
      ensures ListsValid() && (Valid() <==> !(Wraps(nSize) && block != NULL))
      ensures block != NULL <==> old(HasRoom(nSize))
      ensures block == NULL ==>
                headers == old(headers) && place == old(place) && lists == old(lists) && next == old(next)
      ensures reserve == if block == NULL && next != NULL then 0 else old(reserve)
      ensures block != NULL ==>
                && HEADER <= block && block - HEADER in headers && nSize <= headers[block - HEADER].size
                && place == old(place)[block - HEADER := Live(nSize)]
                && (block - HEADER in old(place) ==> old(place)[block - HEADER].OnList?)
                && SameSizes(old(headers), headers)
      ensures bucket <= |sizes| && (forall c | 0 <= c < bucket :: sizes[c] < nSize)
              && (bucket < |sizes| ==> nSize <= sizes[bucket])
      ensures block != NULL ==>
                && 64 <= block && block - 64 in headers
                && headers[block - 64].size == (if bucket < |sizes| then sizes[bucket] else nSize)
                && if bucket < |sizes| && bucket < |old(lists)| && old(lists)[bucket] != [] then
                     && block == old(lists)[bucket][0] + 64 && next == old(next)
                     && lists == old(lists)[bucket := old(lists)[bucket][1..]]
                   else
                     && block == old(next) + 64 && lists == old(lists)
                     && next == block + if nSize > 0xFFFF_FFC0 then 0 else (headers[block - 64].size + 63) / 64 * 64
    {
      hide Tiled, Placed, Step, WrappedStep, Fitting, Rounded, AllFree;
      var size, b := nSize, 0;
      while b < |sizes| && sizes[b] < nSize
        invariant b <= |sizes| && forall c | 0 <= c < b :: sizes[c] < nSize
      {
        b := b + 1;
      }
      bucket := b;
      FittingIs(sizes, nSize, b);
      if next == NULL {
        return NULL, bucket;
      }
      if b < |sizes| {
        size := sizes[b];
        HeadOfList(b);
      }
      var header: Address;
      if b < |sizes| && freeList[b] != NULL {
        header := TakeFirst(b, nSize);
      } else {
        WrappedStepIsStep(size);
        StepBounds(size);
        var nextBlock := (next + WrappedStep(size)) % SPAN;
        if nextBlock <= next || nextBlock > limit - reserve {
          reserve := 0;
          return NULL, bucket;
        }
        header := Carve(size, nSize, nextBlock);
      }
      block := header + HEADER;
    }

    /** A block in use, by the address of its data. */
    ghost predicate InUse(block: Address)
      reads this`place
    {
      HEADER <= block && block - HEADER in place && place[block - HEADER].Live?
    }

    ghost predicate UsedFor(block: Address, size: nat)
      reads this`place
    {
      InUse(block) && place[block - HEADER] == Live(size)
    }

    /** Puts a block on the free list for its size; the space of a block of another size
        is lost. */
    method Free(block: Address) returns (ghost bucket: nat)
      requires ListsValid() && (block == NULL || InUse(block))
      modifies this`headers, this`place, this`lists, freeList
      ensures bucket <= |sizes| && forall c | 0 <= c < bucket :: sizes[c] != DataSize(old(headers), block)
      ensures block == NULL ==> place == old(place) && lists == old(lists)
      ensures block != NULL && bucket < |sizes| ==>
                && sizes[bucket] == DataSize(old(headers), block) && bucket < |old(lists)| && HEADER <= block
                && place == old(place)[block - HEADER := OnList(bucket)]
                && lists == old(lists)[bucket := [block - HEADER] + old(lists)[bucket]]
      ensures block != NULL && bucket == |sizes| ==>
                HEADER <= block && place == old(place)[block - HEADER := Lost] && lists == old(lists)
      ensures ListsValid() && SameSizes(old(headers), headers)
      ensures old(Valid()) ==> Valid()
    {
      hide Tiled, Placed, AllFree;
      bucket := 0;
      if block == NULL {
        return;
      }
      var header: Address := block - HEADER;
      assert PlaceRight(headers, place, lists, sizes, header) by { PlacedAt(headers, place, lists, sizes, header); }
      var b := 0;
      while b < |sizes|
        invariant b <= |sizes| && forall c | 0 <= c < b :: headers[header].size != sizes[c]
      {
        if headers[header].size == sizes[b] {
          PushKeeps(headers, freeList[..], place, lists, sizes, b, header);
          if Tiled(headers, base, next) {
            RelinkedIsTiled(headers, base, next, header, freeList[b]);
          }
          ghost var heads := freeList[..];
          headers := headers[header := headers[header].(next := freeList[b])];
          freeList[b] := header;
          assert freeList[..] == heads[b := header];
          lists := Listed(lists, b, header);
          place := place[header := OnList(b)];
          return b;
        }
        b := b + 1;
      }
      LoseKeeps(headers, place, lists, sizes, header);
      place := place[header := Lost];
      return b;
    }

    /** Freeing a block and asking for one of its bucket gives the same block again. */
    method FreeAndAllocate(block: Address, nSize: nat, ghost c: nat) returns (r: Address)
      requires Valid() && next != 0 && InUse(block) && c < |sizes| && DataSize(headers, block) == sizes[c]
      requires nSize <= sizes[c] && forall d | 0 <= d < c :: sizes[d] < nSize
      modifies this`headers, this`next, this`reserve, this`place, this`lists, freeList
      ensures Valid() && r == block && UsedFor(r, nSize) && lists == old(lists) && next == old(next)
    {
      hide Tiled, Placed, AllFree, Step, Fitting, Rounded, FreeLists, HasRoom;
      ghost var freed := Free(block);
      RoomByBucket(nSize, c);
      ghost var bucket: nat;
      r, bucket := Allocate(nSize);
    }

    /** What a block in use looks like: inside the region and as large as was asked for. */
    lemma InUseHeader(header: Address)
      requires Valid() && header in place
      ensures header in headers && header != NULL && headers[header].magic == 0x424C4D43
      ensures base <= header && header + 64 + headers[header].size <= next <= limit
      ensures place[header].Live? ==> place[header].requested <= headers[header].size
    {
      hide Step;
      StepBounds(headers[header].size);
      assert Carved(headers, base, next, header) && PlaceRight(headers, place, lists, sizes, header);
    }

    /** A block's data is aligned as the region is: as the allocator asserts, exactly if
        the region's address is a multiple of 64. */
    lemma BlockAligned(header: Address)
      requires Valid() && header in headers
      ensures (header + HEADER) % ALIGN == base % ALIGN
      ensures (header + HEADER) % ALIGN == 0 <==> base % ALIGN == 0
      ensures base == BASE_ALIGN ==> (header + HEADER) % ALIGN == BASE_ALIGN
    {
      hide Tiled, Placed, AllFree, FreeList;
      TiledAligned(headers, base, next, header);
      AlignedAlike(header, base);
    }

    /** The data of two blocks in use never overlap, nor does one's data overlap the
        other's header. */
    lemma BlocksApart(a: Address, b: Address)
      requires Valid() && a in place && b in place && a != b
      ensures a + 64 + headers[a].size <= b || b + 64 + headers[b].size <= a
    {
      hide Step;
      StepBounds(headers[a].size);
      StepBounds(headers[b].size);
      assert Apart(headers, a, b);
    }

    /** Copies a block's data; both ends are in the memory if the blocks are. */
    method CopyData(to: Address, block: Address)
      requires |memory| == SPAN && HEADER <= block && block - HEADER in headers
      modifies this`memory
      ensures |memory| == SPAN
      ensures var n := headers[block - HEADER].size;
              to + n <= SPAN && block + n <= SPAN ==> IsCopy(memory, old(memory), to, block, n)
    {
      var n := headers[block - HEADER].size;
      if to + n <= SPAN && block + n <= SPAN {
        CopiedIsCopy(memory, to, block, n);
      }
      memory := Copied(memory, to, block, n);
    }

    /** A new block with the old block's data; the old block is freed. */
    method Move(block: Address, nSize: nat) returns (r: Address)
      requires Valid() && InUse(block) && nSize < SPAN && DataSize(headers, block) < nSize
      modifies this`memory, this`headers, this`next, this`reserve, this`place, this`lists, freeList
      ensures ListsValid() && SameSizes(old(headers), headers)
      ensures !Wraps(nSize) ==> Valid()
      ensures r != NULL <==> old(HasRoom(nSize))
      ensures r == NULL ==> place == old(place) && memory == old(memory)
      ensures r != NULL ==>
                && r != block && UsedFor(r, nSize) && !old(InUse(r)) && !InUse(block)
                && (!Wraps(nSize) ==> IsCopy(memory, old(memory), r, block, DataSize(old(headers), block)))
      ensures forall a | a in place && a + HEADER != block && a + HEADER != r ::
                a in old(place) && place[a] == old(place)[a]
    {
      hide Tiled, Placed, Step, WrappedStep, AllFree, Configured, HeapAllocator.FreeLists, HeapAllocator.HasRoom,
        HeapAllocator.Reusable, Copied, IsCopy;
      var header: Address := block - HEADER;
      InUseHeader(header);
      ghost var bucket: nat;
      r, bucket := Allocate(nSize);
      if r == NULL {
        return NULL;
      }
      if !Wraps(nSize) {
        InUseHeader(header);
        InUseHeader(r - HEADER);
      }
      CopyData(r, block);
      bucket := Free(block);
    }

    /** A block of at least the new size with the old block's data; the old block is
        freed if the data had to move, and still there if it could not. */
    method ReAllocate(block: Address, nSize: nat) returns (r: Address)
      requires Valid() && (block == NULL || InUse(block)) && nSize < SPAN
      modifies this`memory, this`headers, this`next, this`reserve, this`place, this`lists, freeList
      ensures ListsValid() && SameSizes(old(headers), headers)
      ensures !Wraps(nSize) ==> Valid()
      ensures block != NULL && nSize == 0 ==> r == NULL && !InUse(block)
      ensures block != NULL && 0 < nSize <= DataSize(old(headers), block) ==> r == block
      ensures block == NULL || nSize > DataSize(old(headers), block) ==> (r != NULL <==> old(HasRoom(nSize)))
      ensures r != NULL ==> UsedFor(r, nSize)
      ensures r == NULL && nSize != 0 ==> place == old(place)
      ensures r != NULL && r != block ==> !old(InUse(r)) && !InUse(block)
      ensures if r != NULL && r != block && block != NULL
              then !Wraps(nSize) ==> IsCopy(memory, old(memory), r, block, DataSize(old(headers), block))
              else memory == old(memory)
      ensures forall a | a in place && a + HEADER != block && a + HEADER != r ::
                a in old(place) && place[a] == old(place)[a]
    {
      hide Tiled, Placed, Step, WrappedStep, AllFree, HeapAllocator.HasRoom, HeapAllocator.Reusable, Copied, IsCopy;
      ghost var bucket: nat;
      if block == NULL {
        r, bucket := Allocate(nSize);
        return r;
      }
      if nSize == 0 {
        bucket := Free(block);
        return NULL;
      }
      var header: Address := block - HEADER;
      InUseHeader(header);
      if headers[header].size >= nSize {
        ResizeKeeps(headers, place, lists, sizes, header, nSize);
        place := place[header := Live(nSize)];
        return block;
      }
      r := Move(block, nSize);
    }
  }

  /** The size of a block, by the address of its data. */
  function DataSize(headers: Headers, block: Address): nat {
    if HEADER <= block && block - HEADER in headers then headers[block - HEADER].size else 0
  }

  /** The n bytes of a block were copied to r, and nothing else changed. */
  ghost predicate IsCopy(memory: seq<Byte>, was: seq<Byte>, r: Address, block: Address, n: nat) {
    && r + n <= |memory| == |was| && block + n <= |was|
    && memory[r..r + n] == was[block..block + n]
    && OutsideSame(was, memory, r, n)
  }

  /** The copy of a block's data, byte by byte; its size is in the header before it. */
  lemma CopyByBytes(headers: Headers, memory: seq<Byte>, was: seq<Byte>, r: Address, block: Address)
    requires 64 <= block && block - 64 in headers && IsCopy(memory, was, r, block, DataSize(headers, block))
    ensures var n := headers[block - 64].size;
            && |memory| == |was| && r + n <= |was| && block + n <= |was|
            && forall a | 0 <= a < |was| :: memory[a] == was[if r <= a < r + n then block + (a - r) else a]
  {
    var n := headers[block - 64].size;
    forall a | r <= a < r + n
      ensures memory[a] == was[block + (a - r)]
    {
      assert memory[r..r + n][a - r] == was[block..block + n][a - r];
    }
  }

  lemma CopiedIsCopy(memory: seq<Byte>, to: Address, from: Address, n: nat)
    requires to + n <= |memory| && from + n <= |memory|
    ensures IsCopy(Copied(memory, to, from, n), memory, to, from, n)
  {
  }

  ghost predicate OutsideSame(memory: seq<Byte>, after: seq<Byte>, from: Address, n: nat) {
    |after| == |memory| && forall a | 0 <= a < |memory| && !(from <= a < from + n) :: after[a] == memory[a]
  }

  /** A block freed but put on no list. */
  lemma LoseKeeps(headers: Headers, place: map<Address, Place>, lists: seq<seq<Address>>, sizes: seq<nat>, a: Address)
    requires Placed(headers, place, lists, sizes) && a in place && place[a].Live? && headers[a].size !in sizes
    ensures Placed(headers, place[a := Lost], lists, sizes)
  {
    assert PlaceRight(headers, place, lists, sizes, a);
    MovedIsPlaced(headers, headers, place, lists, lists, sizes, a, Lost);
  }

  /** A block used for another size. */
  lemma ResizeKeeps(headers: Headers, place: map<Address, Place>, lists: seq<seq<Address>>, sizes: seq<nat>, a: Address,
                    requested: nat)
    requires Placed(headers, place, lists, sizes) && a in place && place[a].Live? && requested <= headers[a].size
    ensures Placed(headers, place[a := Live(requested)], lists, sizes)
  {
    assert PlaceRight(headers, place, lists, sizes, a);
    MovedIsPlaced(headers, headers, place, lists, lists, sizes, a, Live(requested));
  }

  /** A header right before the unused part leaves no room for data. */
  lemma NoRoom(headers: Headers, base: Address, next: Address, a: Address)
    requires a in headers && next < a + HEADER + headers[a].size
    ensures !Tiled(headers, base, next)
  {
    hide Step;
    StepBounds(headers[a].size);
    assert End(headers, a) > next;
    assert !Carved(headers, base, next, a);
  }

  ghost predicate SameSizes(headers: Headers, after: Headers) {
    forall a | a in headers :: a in after && after[a].size == headers[a].size
  }
}
