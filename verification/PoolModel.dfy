/**
  The region allocator as a value: a chain of equal-size blocks filled from the bottom, a list
  of large chunks, the ranges handed out so far, and what the host allocator has given.

  Addresses are integers. Sizes and offsets are those of an LP64 build.
 */
module PoolModel {
  const TOP := 0x1_0000_0000_0000_0000   // one past the last address, and the modulus of size_t
  const POOL_HEADER := 80                // sizeof(cw_pool_t), at the start of the first block
  const BLOCK_HEADER := 32               // sizeof(cw_pool_data_t), at the start of every other block
  const LARGE_RECORD := 16               // sizeof(cw_pool_large_t)
  const MAX_SMALL := 1023                // CW_MAX_ALLOC_FROM_POOL
  const POOL_ALIGNMENT := 16

  // ---------------------------------------------------------------- size_t and pointer arithmetic

  /** cw_align_ptr, for the two values CW_ALIGNMENT takes on an LP64 build. */
  function AlignUp(p: int, a: nat): int {
    if a == 16 then (p + 15) / 16 * 16 else (p + 7) / 8 * 8
  }

  /** The same as a machine word: at the very top of the address space it wraps to 0. */
  function AlignPtr(p: int, a: nat): int {
    AlignUp(p, a) % TOP
  }

  predicate IsAlignment(a: nat) { a == 8 || a == 16 }

  predicate AlignedTo(p: int, a: nat) {
    if a == 16 then p % 16 == 0 else p % 8 == 0
  }

  /** The size_t difference of two pointers: it wraps. */
  function Sub64(p: int, q: int): nat {
    (p - q) % TOP
  }

  // ---------------------------------------------------------------- the host allocator

  predicate Disjoint(a: int, n: nat, b: int, m: nat) {
    a + n <= b || b + m <= a
  }

  /**
    What malloc and posix_memalign promise: an unused range of the address space, 16-aligned. Its
    end is an address too.
   */
  predicate FreshRange(host: map<int, nat>, a: int, n: nat) {
    && 0 < a && a % 16 == 0 && a + n < TOP && 0 < n
    && a !in host
    && forall b :: b in host ==> Disjoint(a, n, b, host[b])
  }

  /** The chunks the host has given and not got back. */
  ghost predicate HostOk(host: map<int, nat>) {
    && (forall a :: a in host ==> 0 < a && a % 16 == 0 && a + host[a] < TOP && 0 < host[a])
    && (forall a, b :: a in host && b in host && a != b ==> Disjoint(a, host[a], b, host[b]))
  }

  // ---------------------------------------------------------------- the pool

  datatype Block = Block(base: int, last: int, end: int, failed: nat)

  /** One cw_pool_large_t: where the record lies and the chunk it points to (0 for NULL). */
  datatype Large = Large(record: int, alloc: int)

  datatype Pool = Pool(blocks: seq<Block>, current: nat, max: nat, large: seq<Large>, align: nat)

  datatype Home = InBlock(i: nat) | OwnChunk

  /** A range handed out, and where it lies. */
  datatype Live = Live(addr: int, size: nat, home: Home, record: bool)

  datatype Sys = Sys(pool: Pool, live: seq<Live>, host: map<int, nat>)

  /** The host's answers to one request: a chunk and a block, 0 for a failure. */
  datatype Grants = Grants(chunk: int, block: int)

  // ---------------------------------------------------------------- cw_create_pool

  /** The first block alone. A size below the header would wrap `max` around; no caller passes one. */
  function Created(host: map<int, nat>, size: nat, align: nat, grant: int): Sys
    requires size >= POOL_HEADER
  {
    var max := if size - POOL_HEADER < MAX_SMALL then size - POOL_HEADER else MAX_SMALL;
    Sys(Pool([Block(grant, grant + POOL_HEADER, grant + size, 0)], 0, max, [], align), [], host[grant := size])
  }

  // ---------------------------------------------------------------- cw_palloc_small

  function Candidate(b: Block, a: nat, aligned: bool): int {
    if aligned then AlignPtr(b.last, a) else b.last
  }

  /** The fit test of cw_palloc_small, in size_t arithmetic. */
  predicate HasRoom(b: Block, a: nat, aligned: bool, size: nat) {
    Sub64(b.end, Candidate(b, a, aligned)) >= size
  }

  /** The first block from i on that passes the fit test, or the length of the chain. */
  function FirstFit(blocks: seq<Block>, i: nat, a: nat, aligned: bool, size: nat): (j: nat)
    requires i <= |blocks|
    ensures i <= j <= |blocks|
    ensures forall k :: i <= k < j ==> !HasRoom(blocks[k], a, aligned, size)
    ensures j < |blocks| ==> HasRoom(blocks[j], a, aligned, size)
    decreases |blocks| - i
  {
    if i == |blocks| || HasRoom(blocks[i], a, aligned, size) then i
    else FirstFit(blocks, i + 1, a, aligned, size)
  }

  function BlockSize(p: Pool): int
    requires p.blocks != []
  {
    p.blocks[0].end - p.blocks[0].base
  }

  predicate Chained(p: Pool) {
    p.current < |p.blocks| && BlockSize(p) >= 0
  }

  function PallocSmall(s: Sys, size: nat, aligned: bool, record: bool, grant: int): (r: (Sys, int))
    requires Chained(s.pool)
    ensures Chained(r.0.pool)
  {
    var p := s.pool;
    var j := FirstFit(p.blocks, p.current, p.align, aligned, size);
    if j < |p.blocks| then
      var m := Candidate(p.blocks[j], p.align, aligned);
      (s.(pool := p.(blocks := p.blocks[j := p.blocks[j].(last := m + size)]),
          live := s.live + [Live(m, size, InBlock(j), record)]), m)
    else PallocBlock(s, size, record, grant)
  }

  // ---------------------------------------------------------------- cw_palloc_block

  /** The walk of cw_palloc_block from block k on: every block but the last counts one more failure. */
  function CountFailures(blocks: seq<Block>, k: nat): seq<Block>
    requires k < |blocks|
  {
    seq(|blocks|, i requires 0 <= i < |blocks| =>
      if k <= i < |blocks| - 1 then blocks[i].(failed := blocks[i].failed + 1) else blocks[i])
  }

  /** Where the same walk leaves pool->current. */
  function MovedCurrent(blocks: seq<Block>, k: nat, current: nat): (c: nat)
    requires current <= k < |blocks|
    ensures current <= c < |blocks|
    decreases |blocks| - k
  {
    if k == |blocks| - 1 then current
    else MovedCurrent(blocks, k + 1, if blocks[k].failed > 4 then k + 1 else current)
  }

  function PallocBlock(s: Sys, size: nat, record: bool, grant: int): (r: (Sys, int))
    requires Chained(s.pool)
    ensures Chained(r.0.pool)
  {
    if grant == 0 then (s, 0)
    else
      var p := s.pool;
      var psize := BlockSize(p);
      var m := AlignUp(grant + BLOCK_HEADER, p.align);
      var blocks := CountFailures(p.blocks, p.current) + [Block(grant, m + size, grant + psize, 0)];
      (Sys(p.(blocks := blocks, current := MovedCurrent(p.blocks, p.current, p.current)),
           s.live + [Live(m, size, InBlock(|p.blocks|), record)],
           s.host[grant := psize]), m)
  }

  // ---------------------------------------------------------------- cw_palloc_large

  /** The first of the first five large records that points to nothing, or the number of records looked at. */
  function FreeRecord(large: seq<Large>, k: nat): (j: nat)
    requires k <= |large|
    ensures k <= j <= |large|
    ensures j < |large| && j < 5 ==> large[j].alloc == 0
    decreases |large| - k
  {
    if k == |large| || k >= 5 || large[k].alloc == 0 then k else FreeRecord(large, k + 1)
  }

  function PallocLarge(s: Sys, size: nat, g: Grants): (r: (Sys, int))
    requires Chained(s.pool)
    ensures Chained(r.0.pool)
  {
    if g.chunk == 0 then (s, 0)
    else
      var large := s.pool.large;
      var k := FreeRecord(large, 0);
      var chunk := Live(g.chunk, size, OwnChunk, false);
      if k < |large| && k < 5 then
        var pool := s.pool.(large := large[k := large[k].(alloc := g.chunk)]);
        (Sys(pool, s.live + [chunk], s.host[g.chunk := size]), g.chunk)
      else
        var (t, rec) := PallocSmall(s.(host := s.host[g.chunk := size]), LARGE_RECORD, true, true, g.block);
        if rec == 0 then (s, 0)
        else (t.(pool := t.pool.(large := [Large(rec, g.chunk)] + large), live := t.live + [chunk]), g.chunk)
  }

  /** cw_palloc (aligned) and cw_pnalloc (not aligned). */
  function Palloc(s: Sys, size: nat, aligned: bool, g: Grants): (r: (Sys, int))
    requires Chained(s.pool)
    ensures Chained(r.0.pool)
  {
    if size <= s.pool.max then PallocSmall(s, size, aligned, false, g.block) else PallocLarge(s, size, g)
  }

  /** The host answers a request for size bytes, whatever it needs from the host. */
  predicate LegalGrants(s: Sys, size: nat, g: Grants)
    requires Chained(s.pool)
  {
    && (g.chunk == 0 || FreshRange(s.host, g.chunk, size))
    && (g.block == 0 || FreshRange(if size <= s.pool.max || g.chunk == 0 then s.host else s.host[g.chunk := size],
                                   g.block, BlockSize(s.pool)))
  }

  // ---------------------------------------------------------------- what every reachable pool satisfies

  function Lo(p: Pool, i: nat): int
    requires i < |p.blocks|
  {
    p.blocks[i].base + if i == 0 then POOL_HEADER else BLOCK_HEADER
  }

  /** Blocks of one size, aligned at both ends, each filled somewhere between its header and its end. */
  ghost predicate Geometry(p: Pool) {
    && IsAlignment(p.align)
    && p.current < |p.blocks|
    && POOL_HEADER <= BlockSize(p) && AlignedTo(BlockSize(p), p.align)
    && p.max == (if BlockSize(p) - POOL_HEADER < MAX_SMALL then BlockSize(p) - POOL_HEADER else MAX_SMALL)
    && forall i :: 0 <= i < |p.blocks| ==> BlockOk(p, i)
  }

  ghost predicate BlockOk(p: Pool, i: nat)
    requires i < |p.blocks|
  {
    var b := p.blocks[i];
    b.base % POOL_ALIGNMENT == 0 && b.end == b.base + BlockSize(p) && Lo(p, i) <= b.last <= b.end
  }

  /** The blocks and the chunks are different host ranges of the right size. */
  ghost predicate Owning(s: Sys) {
    var p := s.pool;
    && (forall i :: 0 <= i < |p.blocks| ==> p.blocks[i].base in s.host && s.host[p.blocks[i].base] == BlockSize(p))
    && (forall i, j :: 0 <= i < j < |p.blocks| ==> p.blocks[i].base != p.blocks[j].base)
    && (forall k :: 0 <= k < |p.large| && p.large[k].alloc != 0 ==> p.large[k].alloc in s.host)
    && (forall k, i :: 0 <= k < |p.large| && 0 <= i < |p.blocks| ==> p.large[k].alloc != p.blocks[i].base)
    && (forall k, l :: 0 <= k < l < |p.large| && p.large[k].alloc != 0 ==> p.large[k].alloc != p.large[l].alloc)
  }

  ghost predicate IsChunk(p: Pool, a: int) {
    exists k :: 0 <= k < |p.large| && p.large[k].alloc == a
  }

  /** A range lies in the payload of its block, below `last` if it is not empty, or is a chunk of its own. */
  ghost predicate Housed(s: Sys, r: Live) {
    var p := s.pool;
    match r.home
    case InBlock(i) =>
      && i < |p.blocks|
      && Lo(p, i) <= r.addr && r.addr + r.size <= p.blocks[i].end
      && (r.size > 0 ==> r.addr + r.size <= p.blocks[i].last)
    case OwnChunk =>
      && r.addr != 0 && IsChunk(p, r.addr)
      && r.addr in s.host && r.size <= s.host[r.addr]
  }

  ghost predicate Apart(r: Live, q: Live) {
    r.size > 0 && q.size > 0 ==> Disjoint(r.addr, r.size, q.addr, q.size)
  }

  ghost predicate LiveOk(s: Sys) {
    && (forall h :: 0 <= h < |s.live| ==> Housed(s, s.live[h]))
    && (forall h, h' :: 0 <= h < h' < |s.live| ==> Apart(s.live[h], s.live[h']))
  }

  /** Every record of the large list occupies a range in a block, handed out for it. */
  ghost predicate RecordsHeld(s: Sys) {
    forall k :: 0 <= k < |s.pool.large| ==> RecordHeld(s.live, s.pool.large[k].record)
  }

  ghost predicate RecordHeld(live: seq<Live>, a: int) {
    exists h ::
      0 <= h < |live| && live[h].addr == a && live[h].size == LARGE_RECORD && live[h].record && live[h].home.InBlock?
  }

  ghost predicate Inv(s: Sys) {
    Geometry(s.pool) && HostOk(s.host) && Owning(s) && LiveOk(s) && RecordsHeld(s)
  }
}
