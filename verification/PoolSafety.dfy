/**
  Safety of the region allocator: the size_t fit test is exact, and every allocation keeps all
  ranges apart, inside their block's payload or in a chunk of their own.
 */
module PoolSafety {
  import opened PoolModel
  import MachineWords

  // ---------------------------------------------------------------- alignment and the fit test

  lemma AlignUpFacts(p: int, a: nat)
    requires IsAlignment(a)
    ensures p <= AlignUp(p, a) < p + a && AlignedTo(AlignUp(p, a), a)
    ensures AlignedTo(p, a) ==> AlignUp(p, a) == p
  {
    var q := if a == 16 then (p + 15) / 16 else (p + 7) / 8;
    if a == 16 {
      assert AlignUp(p, a) == 16 * q;
    } else {
      assert AlignUp(p, a) == 8 * q;
    }
  }

  lemma AlignUpBelow(p: int, a: nat, end: int)
    requires IsAlignment(a) && p <= end && AlignedTo(end, a)
    ensures AlignUp(p, a) <= end
  {
  }

  lemma BlockEndAligned(p: Pool, i: nat)
    requires Geometry(p) && i < |p.blocks|
    ensures BlockOk(p, i) && AlignedTo(p.blocks[i].end, p.align)
  {
    hide AlignedTo;
    assert BlockOk(p, i);
    AlignedSum(p.blocks[i].base, BlockSize(p), p.align);
  }

  lemma AlignedSum(base: int, n: int, a: nat)
    requires base % POOL_ALIGNMENT == 0 && AlignedTo(n, a)
    ensures AlignedTo(base + n, a)
  {
    if a == 16 { SumOf16(base, n); } else { SumOf8(base, n); }
  }

  lemma SumOf16(x: int, y: int)
    requires x % 16 == 0 && y % 16 == 0
    ensures (x + y) % 16 == 0
  {
  }

  lemma SumOf8(x: int, y: int)
    requires x % 16 == 0 && y % 8 == 0
    ensures (x + y) % 8 == 0
  {
    assert x % 8 == 0;
  }

  lemma BlockInSpace(s: Sys, i: nat)
    requires Inv(s) && i < |s.pool.blocks|
    ensures BlockOk(s.pool, i) && 0 < s.pool.blocks[i].base && s.pool.blocks[i].end < TOP
  {
    hide LiveOk, RecordsHeld;
    assert BlockOk(s.pool, i) && s.pool.blocks[i].base in s.host;
  }

  lemma CandidateInBlock(s: Sys, i: nat, aligned: bool)
    requires Inv(s) && i < |s.pool.blocks|
    ensures var b := s.pool.blocks[i];
            b.last <= Candidate(b, s.pool.align, aligned) <= b.end
    ensures aligned ==> AlignedTo(Candidate(s.pool.blocks[i], s.pool.align, aligned), s.pool.align)
  {
    hide LiveOk, RecordsHeld, HostOk, Owning, AlignUp, AlignedTo;
    var b := s.pool.blocks[i];
    BlockInSpace(s, i);
    BlockEndAligned(s.pool, i);
    AlignUpFacts(b.last, s.pool.align);
    AlignUpBelow(b.last, s.pool.align, b.end);
    assert AlignUp(b.last, s.pool.align) % TOP == AlignUp(b.last, s.pool.align);
  }

  /** The model's candidate is the word cw_align_ptr computes. */
  lemma CandidateIsMask(b: Block, a: nat)
    requires IsAlignment(a) && 0 <= b.last < TOP
    ensures Candidate(b, a, true) == MachineWords.AlignMask(b.last, a)
  {
    MachineWords.MaskIsAlignPtr(b.last, a);
  }

  /** Behind the header of a block just granted it does not wrap. */
  lemma HeaderIsMask(host: map<int, nat>, grant: int, size: nat, a: nat)
    requires IsAlignment(a) && FreshRange(host, grant, size) && size >= POOL_HEADER
    ensures AlignUp(grant + BLOCK_HEADER, a) == MachineWords.AlignMask(grant + BLOCK_HEADER, a)
  {
    hide AlignUp, MachineWords.AlignMask, AlignedTo;
    var p := grant + BLOCK_HEADER;
    MachineWords.MaskIsAlignPtr(p, a);
    AlignUpFacts(p, a);
    assert 0 <= AlignUp(p, a) < TOP;
  }

  /** In every valid pool the wrapped difference is the true free space. */
  lemma FitTestExact(s: Sys, i: nat, aligned: bool, size: nat)
    requires Inv(s) && i < |s.pool.blocks|
    ensures var b := s.pool.blocks[i];
            HasRoom(b, s.pool.align, aligned, size) <==> Candidate(b, s.pool.align, aligned) + size <= b.end
  {
    hide LiveOk, RecordsHeld;
    CandidateInBlock(s, i, aligned);
    var b := s.pool.blocks[i];
    assert BlockOk(s.pool, i) && b.base in s.host && s.host[b.base] == BlockSize(s.pool);
    assert b.end <= TOP && 0 < b.base;
  }

  /** A fresh block has room for every request a small allocation can make. */
  lemma FreshBlockFits(p: Pool, grant: int, size: nat)
    requires Geometry(p) && grant % POOL_ALIGNMENT == 0
    requires size <= p.max || size == LARGE_RECORD
    ensures AlignUp(grant + BLOCK_HEADER, p.align) == grant + BLOCK_HEADER && AlignedTo(grant + BLOCK_HEADER, p.align)
    ensures grant + BLOCK_HEADER + size <= grant + BlockSize(p)
  {
    hide AlignUp, BlockOk;
    assert AlignedTo(grant + BLOCK_HEADER, p.align);
    AlignUpFacts(grant + BLOCK_HEADER, p.align);
  }

  // ---------------------------------------------------------------- ranges stay apart

  lemma BlocksApart(s: Sys, i: nat, j: nat)
    requires HostOk(s.host) && Owning(s) && i < |s.pool.blocks| && j < |s.pool.blocks| && i != j
    ensures var a, b := s.pool.blocks[i].base, s.pool.blocks[j].base; Disjoint(a, s.host[a], b, s.host[b])
  {
    var k, l := if i < j then i else j, if i < j then j else i;
    assert s.pool.blocks[k].base != s.pool.blocks[l].base;
  }

  lemma ChunkIsNoBlock(s: Sys, a: int, i: nat)
    requires Owning(s) && IsChunk(s.pool, a) && i < |s.pool.blocks|
    ensures a != s.pool.blocks[i].base
  {
    var k :| 0 <= k < |s.pool.large| && s.pool.large[k].alloc == a;
    assert s.pool.large[k].alloc != s.pool.blocks[i].base;
  }

  /** A range that starts at or above `last` of its block is apart from every range already handed out. */
  lemma AboveLastIsApart(s: Sys, r: Live, h: nat)
    requires Geometry(s.pool) && HostOk(s.host) && Owning(s) && LiveOk(s) && h < |s.live|
    requires r.home.InBlock? && r.home.i < |s.pool.blocks|
    requires s.pool.blocks[r.home.i].last <= r.addr && r.addr + r.size <= s.pool.blocks[r.home.i].end
    ensures Apart(s.live[h], r)
  {
    var q := s.live[h];
    var i := r.home.i;
    assert Housed(s, q) && BlockOk(s.pool, i);
    if q.home != r.home {
      match q.home {
        case InBlock(j) => assert BlockOk(s.pool, j); BlocksApart(s, i, j);
        case OwnChunk => ChunkIsNoBlock(s, q.addr, i);
      }
    }
  }

  // ---------------------------------------------------------------- an allocation inside a block

  /** Block i, filled up to m + size, and the range [m, m + size) handed out. */
  function Fill(s: Sys, i: nat, m: int, size: nat, record: bool): Sys
    requires i < |s.pool.blocks|
  {
    s.(pool := s.pool.(blocks := s.pool.blocks[i := s.pool.blocks[i].(last := m + size)]),
       live := s.live + [Live(m, size, InBlock(i), record)])
  }

  lemma HousedAfterFill(s: Sys, i: nat, m: int, size: nat, record: bool, r: Live)
    requires i < |s.pool.blocks| && s.pool.blocks[i].last <= m + size && Housed(s, r)
    ensures Housed(Fill(s, i, m, size, record), r)
  {
    if r.home.OwnChunk? {
      assert Fill(s, i, m, size, record).pool.large == s.pool.large;
    }
  }

  lemma FillKeepsGeometry(s: Sys, i: nat, m: int, size: nat, record: bool)
    requires Geometry(s.pool) && Owning(s) && i < |s.pool.blocks|
    requires s.pool.blocks[i].last <= m && m + size <= s.pool.blocks[i].end
    ensures var t := Fill(s, i, m, size, record);
            Geometry(t.pool) && Owning(t) && BlockSize(t.pool) == BlockSize(s.pool)
  {
    var t := Fill(s, i, m, size, record);
    forall j | 0 <= j < |t.pool.blocks| ensures BlockOk(t.pool, j) { assert BlockOk(s.pool, j); }
    assert forall j :: 0 <= j < |t.pool.blocks| ==> t.pool.blocks[j].base == s.pool.blocks[j].base;
  }

  lemma FillSafe(s: Sys, i: nat, m: int, size: nat, record: bool)
    requires Inv(s) && i < |s.pool.blocks|
    requires s.pool.blocks[i].last <= m && m + size <= s.pool.blocks[i].end
    ensures Inv(Fill(s, i, m, size, record))
  {
    hide Geometry, Owning, HostOk;
    var t := Fill(s, i, m, size, record);
    assert Lo(s.pool, i) <= s.pool.blocks[i].last by { assert Geometry(s.pool); LastAboveLo(s.pool, i); }
    FillKeepsGeometry(s, i, m, size, record);
    forall h | 0 <= h < |t.live| ensures Housed(t, t.live[h]) {
      if h < |s.live| { HousedAfterFill(s, i, m, size, record, s.live[h]); }
    }
    forall h, h' | 0 <= h < h' < |t.live| ensures Apart(t.live[h], t.live[h']) {
      if h' == |s.live| { AboveLastIsApart(s, t.live[h'], h); } else { assert Apart(s.live[h], s.live[h']); }
    }
    RecordsStay(s, t);
  }

  lemma LastAboveLo(p: Pool, i: nat)
    requires Geometry(p) && i < |p.blocks|
    ensures Lo(p, i) <= p.blocks[i].last
  {
    assert BlockOk(p, i);
  }

  lemma RecordsStay(s: Sys, t: Sys)
    requires RecordsHeld(s) && s.live <= t.live && t.pool.large == s.pool.large
    ensures RecordsHeld(t)
  {
    forall k | 0 <= k < |t.pool.large| ensures RecordHeld(t.live, t.pool.large[k].record) {
      RecordStays(s.live, t.live, s.pool.large[k].record);
    }
  }

  lemma RecordStays(live: seq<Live>, live': seq<Live>, a: int)
    requires RecordHeld(live, a) && live <= live'
    ensures RecordHeld(live', a)
  {
    var h :|
      0 <= h < |live| && live[h].addr == a && live[h].size == LARGE_RECORD && live[h].record && live[h].home.InBlock?;
    assert live'[h] == live[h];
  }

  // ---------------------------------------------------------------- the host gives a range

  lemma HostGrows(host: map<int, nat>, a: int, n: nat)
    requires HostOk(host) && FreshRange(host, a, n)
    ensures HostOk(host[a := n])
  {
    var host' := host[a := n];
    forall b, c | b in host' && c in host' && b != c
      ensures Disjoint(b, host'[b], c, host'[c])
    {
      if b != a && c != a { assert Disjoint(b, host[b], c, host[c]); }
    }
  }

  /** The host range a handed-out range lies in. */
  lemma HousedInHost(s: Sys, r: Live) returns (b: int)
    requires Geometry(s.pool) && Owning(s) && Housed(s, r)
    ensures b in s.host && b <= r.addr && r.addr + r.size <= b + s.host[b]
    ensures b == match r.home case InBlock(i) => s.pool.blocks[i].base case OwnChunk => r.addr
  {
    match r.home
    case InBlock(i) =>
      assert BlockOk(s.pool, i);
      b := s.pool.blocks[i].base;
    case OwnChunk => b := r.addr;
  }

  lemma GrantKeepsInv(s: Sys, a: int, n: nat)
    requires Inv(s) && FreshRange(s.host, a, n)
    ensures Inv(s.(host := s.host[a := n]))
  {
    hide Geometry, HostOk, RecordHeld;
    var t := s.(host := s.host[a := n]);
    HostGrows(s.host, a, n);
    assert Owning(t);
    forall h | 0 <= h < |t.live| ensures Housed(t, t.live[h]) { assert Housed(s, s.live[h]); }
    forall h, h' | 0 <= h < h' < |t.live| ensures Apart(t.live[h], t.live[h']) { assert Apart(s.live[h], s.live[h']); }
    RecordsStay(s, t);
  }

  // ---------------------------------------------------------------- a new block

  lemma CountFailuresKeeps(blocks: seq<Block>, k: nat)
    requires k < |blocks|
    ensures var bs := CountFailures(blocks, k);
            |bs| == |blocks| && forall i :: 0 <= i < |bs| ==> bs[i] == blocks[i].(failed := bs[i].failed)
  {
  }

  lemma NewBlockGeometry(s: Sys, size: nat, record: bool, grant: int)
    requires Geometry(s.pool) && Owning(s) && FreshRange(s.host, grant, BlockSize(s.pool))
    requires size <= s.pool.max || size == LARGE_RECORD
    ensures var (t, m) := PallocBlock(s, size, record, grant);
            && Geometry(t.pool) && Owning(t) && BlockSize(t.pool) == BlockSize(s.pool)
            && m == grant + BLOCK_HEADER && AlignedTo(m, s.pool.align)
  {
    hide AlignUp, AlignedTo, MovedCurrent;
    var (t, m) := PallocBlock(s, size, record, grant);
    FreshBlockFits(s.pool, grant, size);
    CountFailuresKeeps(s.pool.blocks, s.pool.current);
    forall j | 0 <= j < |t.pool.blocks| ensures BlockOk(t.pool, j) {
      if j < |s.pool.blocks| { assert BlockOk(s.pool, j); }
    }
    forall j | 0 <= j < |s.pool.blocks|
      ensures t.pool.blocks[j].base == s.pool.blocks[j].base && s.pool.blocks[j].base != grant
    {
    }
  }

  lemma HousedAfterBlock(s: Sys, size: nat, record: bool, grant: int, r: Live)
    requires Chained(s.pool) && grant != 0 && grant !in s.host && Housed(s, r)
    ensures Housed(PallocBlock(s, size, record, grant).0, r)
  {
    hide AlignUp, MovedCurrent;
    CountFailuresKeeps(s.pool.blocks, s.pool.current);
  }

  lemma NewBlockSafe(s: Sys, size: nat, record: bool, grant: int)
    requires Inv(s) && FreshRange(s.host, grant, BlockSize(s.pool))
    requires size <= s.pool.max || size == LARGE_RECORD
    ensures Inv(PallocBlock(s, size, record, grant).0)
  {
    hide AlignUp, MovedCurrent, CountFailures, HostOk, Owning, RecordHeld;
    var (t, m) := PallocBlock(s, size, record, grant);
    NewBlockGeometry(s, size, record, grant);
    HostGrows(s.host, grant, BlockSize(s.pool));
    CountFailuresKeeps(s.pool.blocks, s.pool.current);
    var n := |s.live|;
    forall h | 0 <= h < |t.live| ensures Housed(t, t.live[h]) {
      if h < n {
        HousedAfterBlock(s, size, record, grant, s.live[h]);
      } else {
        FreshBlockFits(s.pool, grant, size);
      }
    }
    forall h, h' | 0 <= h < h' < |t.live| ensures Apart(t.live[h], t.live[h']) {
      if h' == n {
        var b := HousedInHost(s, s.live[h]);
        FreshBlockFits(s.pool, grant, size);
      } else {
        assert Apart(s.live[h], s.live[h']);
      }
    }
    RecordsStay(s, t);
  }

  /** The request failed and changed nothing, or t holds one more range, [m, m + size). */
  ghost predicate Served(s: Sys, t: Sys, m: int, size: nat, record: bool) {
    if m == 0 then t == s
    else
      && s.live < t.live
      && var r := t.live[|t.live| - 1];
         r.addr == m && r.size == size && r.record == record && (record ==> r.home.InBlock?)
  }

  ghost predicate SameShape(p: Pool, q: Pool) {
    p.blocks != [] && q.blocks != [] && BlockSize(p) == BlockSize(q) && p.max == q.max && p.align == q.align
  }

  lemma TakeFromBlock(s: Sys, j: nat, size: nat, aligned: bool, record: bool)
    requires Inv(s) && j < |s.pool.blocks| && HasRoom(s.pool.blocks[j], s.pool.align, aligned, size)
    ensures var m := Candidate(s.pool.blocks[j], s.pool.align, aligned);
            var t := Fill(s, j, m, size, record);
            Inv(t) && SameShape(s.pool, t.pool) && m > 0 && (aligned ==> AlignedTo(m, s.pool.align))
  {
    hide AlignUp, LiveOk, RecordsHeld, HostOk, HasRoom, Candidate, AlignedTo;
    CandidateInBlock(s, j, aligned);
    FitTestExact(s, j, aligned, size);
    var m := Candidate(s.pool.blocks[j], s.pool.align, aligned);
    FillSafe(s, j, m, size, record);
    FillKeepsGeometry(s, j, m, size, record);
    InBlockNotNull(s, j);
  }

  /** cw_palloc_small: whatever block it takes the range from, every range stays housed and apart. */
  lemma PallocSmallSafe(s: Sys, size: nat, aligned: bool, record: bool, grant: int)
    requires Inv(s) && (grant == 0 || FreshRange(s.host, grant, BlockSize(s.pool)))
    requires size <= s.pool.max || size == LARGE_RECORD
    ensures var (t, m) := PallocSmall(s, size, aligned, record, grant);
            && Inv(t) && SameShape(s.pool, t.pool) && Served(s, t, m, size, record) && t.pool.large == s.pool.large
            && (aligned && m != 0 ==> AlignedTo(m, s.pool.align))
            && (t.host == s.host || (grant != 0 && t.host == s.host[grant := BlockSize(s.pool)]))
  {
    hide AlignUp, LiveOk, RecordsHeld, HostOk, Owning, HasRoom, Candidate, BlockOk;
    var p := s.pool;
    var j := FirstFit(p.blocks, p.current, p.align, aligned, size);
    if j < |p.blocks| {
      TakeFromBlock(s, j, size, aligned, record);
    } else if grant != 0 {
      NewBlockServes(s, size, record, grant);
    }
  }

  lemma NewBlockServes(s: Sys, size: nat, record: bool, grant: int)
    requires Inv(s) && FreshRange(s.host, grant, BlockSize(s.pool))
    requires size <= s.pool.max || size == LARGE_RECORD
    ensures var (t, m) := PallocBlock(s, size, record, grant);
            && Inv(t) && SameShape(s.pool, t.pool) && m != 0 && Served(s, t, m, size, record)
            && t.pool.large == s.pool.large
            && AlignedTo(m, s.pool.align) && t.host == s.host[grant := BlockSize(s.pool)]
  {
    hide AlignUp, AlignedTo, LiveOk, RecordsHeld, HostOk, BlockOk, MovedCurrent, CountFailures;
    NewBlockGeometry(s, size, record, grant);
    NewBlockSafe(s, size, record, grant);
  }

  lemma InBlockNotNull(s: Sys, i: nat)
    requires Inv(s) && i < |s.pool.blocks|
    ensures 0 < s.pool.blocks[i].last
  {
    hide LiveOk, RecordsHeld;
    assert BlockOk(s.pool, i) && s.pool.blocks[i].base in s.host;
  }

  // ---------------------------------------------------------------- a large chunk

  /** A chunk the host has just given joins the large list, in a new record or in record k. */
  function Attach(s: Sys, large: seq<Large>, a: int, size: nat): Sys {
    s.(pool := s.pool.(large := large), live := s.live + [Live(a, size, OwnChunk, false)])
  }

  /** large is the old list with a put in an empty record or in front. */
  ghost predicate PutIn(old_: seq<Large>, large: seq<Large>, a: int) {
    || (exists k :: 0 <= k < |old_| && old_[k].alloc == 0 && large == old_[k := old_[k].(alloc := a)])
    || (large != [] && large[1..] == old_ && large[0].alloc == a)
  }

  lemma PutInFacts(old_: seq<Large>, large: seq<Large>, a: int)
    requires PutIn(old_, large, a) && a != 0
    ensures exists k :: 0 <= k < |large| && large[k].alloc == a
    ensures forall k :: 0 <= k < |old_| && old_[k].alloc != 0 ==>
              exists l :: 0 <= l < |large| && large[l] == old_[k]
    ensures forall l :: 0 <= l < |large| && large[l].alloc != a && large[l].alloc != 0 ==>
              exists k :: 0 <= k < |old_| && old_[k] == large[l]
  {
    if large != [] && large[1..] == old_ && large[0].alloc == a {
      forall k | 0 <= k < |old_| ensures exists l :: 0 <= l < |large| && large[l] == old_[k] {
        assert large[k + 1] == old_[k];
      }
      forall l | 0 < l < |large| ensures exists k :: 0 <= k < |old_| && old_[k] == large[l] {
        assert old_[l - 1] == large[l];
      }
    } else {
      var i :| 0 <= i < |old_| && old_[i].alloc == 0 && large == old_[i := old_[i].(alloc := a)];
      assert large[i].alloc == a;
      forall k | 0 <= k < |old_| && k != i ensures exists l :: 0 <= l < |large| && large[l] == old_[k] {
        assert large[k] == old_[k];
      }
    }
  }

  /** The chunk is in the host and belongs to nothing in the pool yet. */
  ghost predicate Unowned(s: Sys, a: int) {
    && a != 0
    && (forall i :: 0 <= i < |s.pool.blocks| ==> s.pool.blocks[i].base != a)
    && (forall k :: 0 <= k < |s.pool.large| ==> s.pool.large[k].alloc != a)
  }

  lemma AttachOwning(s: Sys, large: seq<Large>, a: int, size: nat)
    requires Owning(s) && Geometry(s.pool) && Unowned(s, a) && a in s.host && PutIn(s.pool.large, large, a)
    requires forall i :: 0 <= i < |s.pool.blocks| ==> s.pool.blocks[i].base != 0
    ensures Owning(Attach(s, large, a, size))
  {
    var t := Attach(s, large, a, size);
    if large != [] && large[1..] == s.pool.large && large[0].alloc == a {
      assert forall l :: 0 < l < |large| ==> large[l] == s.pool.large[l - 1];
    }
  }

  lemma AttachSafe(s: Sys, large: seq<Large>, a: int, size: nat)
    requires Inv(s) && Unowned(s, a) && a in s.host && s.host[a] == size && PutIn(s.pool.large, large, a)
    requires forall k :: 0 <= k < |large| ==> RecordHeld(s.live, large[k].record)
    ensures Inv(Attach(s, large, a, size)) && Attach(s, large, a, size).pool.blocks == s.pool.blocks
  {
    hide HostOk, RecordHeld, BlockOk, PutIn;
    var t := Attach(s, large, a, size);
    forall i | 0 <= i < |s.pool.blocks| ensures s.pool.blocks[i].base != 0 { BaseNotNull(s, i); }
    AttachOwning(s, large, a, size);
    assert Geometry(t.pool) by {
      assert forall i :: 0 <= i < |s.pool.blocks| ==> BlockOk(s.pool, i);
      SameBlocks(s.pool, t.pool);
    }
    PutInFacts(s.pool.large, large, a);
    var n := |s.live|;
    forall h | 0 <= h < |t.live| ensures Housed(t, t.live[h]) {
      if h < n { HousedAfterAttach(s, large, a, size, s.live[h]); }
    }
    forall h, h' | 0 <= h < h' < |t.live| ensures Apart(t.live[h], t.live[h']) {
      if h' == n { ChunkIsApart(s, s.live[h], a, size); } else { assert Apart(s.live[h], s.live[h']); }
    }
    forall k | 0 <= k < |large| ensures RecordHeld(t.live, large[k].record) {
      RecordStays(s.live, t.live, large[k].record);
    }
  }

  lemma SameBlocks(p: Pool, q: Pool)
    requires Geometry(p) && q == p.(large := q.large)
    ensures Geometry(q)
  {
    forall i | 0 <= i < |q.blocks| ensures BlockOk(q, i) { assert BlockOk(p, i); }
  }

  lemma BaseNotNull(s: Sys, i: nat)
    requires HostOk(s.host) && Owning(s) && i < |s.pool.blocks|
    ensures s.pool.blocks[i].base > 0
  {
    assert s.pool.blocks[i].base in s.host;
  }

  lemma HousedAfterAttach(s: Sys, large: seq<Large>, a: int, size: nat, r: Live)
    requires Housed(s, r) && a != 0 && PutIn(s.pool.large, large, a)
    ensures Housed(Attach(s, large, a, size), r)
  {
    hide PutIn;
    if r.home.OwnChunk? {
      PutInFacts(s.pool.large, large, a);
      var k :| 0 <= k < |s.pool.large| && s.pool.large[k].alloc == r.addr;
      var l :| 0 <= l < |large| && large[l] == s.pool.large[k];
      assert IsChunk(Attach(s, large, a, size).pool, r.addr);
    }
  }

  lemma ChunkIsApart(s: Sys, r: Live, a: int, size: nat)
    requires Geometry(s.pool) && HostOk(s.host) && Owning(s) && Housed(s, r)
    requires Unowned(s, a) && a in s.host && s.host[a] == size
    ensures Apart(r, Live(a, size, OwnChunk, false))
  {
    var b := HousedInHost(s, r);
    assert b != a;
    assert Disjoint(b, s.host[b], a, s.host[a]);
  }

  /** cw_palloc_large: the chunk goes into an empty record or into a new one taken from the pool itself. */
  lemma PallocLargeSafe(s: Sys, size: nat, g: Grants)
    requires Inv(s) && size > s.pool.max && LegalGrants(s, size, g)
    ensures var (t, m) := PallocLarge(s, size, g);
            Inv(t) && SameShape(s.pool, t.pool) && Served(s, t, m, size, false)
  {
    hide HostOk, Geometry, Owning, LiveOk, RecordsHeld, PallocSmall, Unowned;
    if g.chunk != 0 {
      var s1 := s.(host := s.host[g.chunk := size]);
      GrantKeepsInv(s, g.chunk, size);
      GrantIsUnowned(s, g.chunk, size);
      var k := FreeRecord(s.pool.large, 0);
      if k < |s.pool.large| && k < 5 {
        LargeReuses(s, s1, k, g.chunk, size);
      } else {
        LargeRecords(s, s1, g, size);
      }
    }
  }

  lemma GrantIsUnowned(s: Sys, a: int, n: nat)
    requires Inv(s) && FreshRange(s.host, a, n)
    ensures Unowned(s.(host := s.host[a := n]), a)
  {
    hide LiveOk, RecordsHeld, HostOk, Geometry;
    forall k | 0 <= k < |s.pool.large| ensures s.pool.large[k].alloc != a {
      assert s.pool.large[k].alloc != 0 ==> s.pool.large[k].alloc in s.host;
    }
  }

  lemma LargeReuses(s: Sys, s1: Sys, k: nat, a: int, size: nat)
    requires Inv(s) && s1 == s.(host := s.host[a := size]) && Inv(s1) && Unowned(s1, a)
    requires k < |s.pool.large| && s.pool.large[k].alloc == 0
    ensures var large := s.pool.large[k := s.pool.large[k].(alloc := a)];
            Inv(Attach(s1, large, a, size)) && SameShape(s.pool, s1.pool)
  {
    hide LiveOk, HostOk, Owning, RecordHeld;
    var large := s.pool.large[k := s.pool.large[k].(alloc := a)];
    assert forall l :: 0 <= l < |large| ==> large[l].record == s1.pool.large[l].record;
    assert PutIn(s1.pool.large, large, a);
    AttachSafe(s1, large, a, size);
  }

  lemma LargeRecords(s: Sys, s1: Sys, g: Grants, size: nat)
    requires Inv(s) && s1 == s.(host := s.host[g.chunk := size]) && Inv(s1)
    requires Unowned(s1, g.chunk) && g.chunk !in s.host
    requires g.block == 0 || FreshRange(s1.host, g.block, BlockSize(s.pool))
    ensures var (t, rec) := PallocSmall(s1, LARGE_RECORD, true, true, g.block);
            rec != 0 ==>
              var u := Attach(t, [Large(rec, g.chunk)] + t.pool.large, g.chunk, size);
              Inv(u) && SameShape(s.pool, u.pool) && s.live < u.live && t.pool.large == s.pool.large
  {
    hide PallocSmall, LiveOk, HostOk, RecordHeld, BlockOk;
    var (t, rec) := PallocSmall(s1, LARGE_RECORD, true, true, g.block);
    PallocSmallSafe(s1, LARGE_RECORD, true, true, g.block);
    if rec != 0 {
      var large := [Large(rec, g.chunk)] + t.pool.large;
      assert large[1..] == t.pool.large;
      SmallBlocks(s1, LARGE_RECORD, true, true, g.block);
      forall k | 0 <= k < |large| ensures RecordHeld(t.live, large[k].record) {
        if k == 0 { NewRecordHeld(t.live); } else { assert large[k] == t.pool.large[k - 1]; }
      }
      AttachSafe(t, large, g.chunk, size);
    }
  }

  lemma NewRecordHeld(live: seq<Live>)
    requires live != [] && var r := live[|live| - 1]; r.record && r.home.InBlock? && r.size == LARGE_RECORD
    ensures RecordHeld(live, live[|live| - 1].addr)
  {
  }

  /** The bases after a small allocation: the old ones, and the granted one if a block was added. */
  lemma SmallBlocks(s: Sys, size: nat, aligned: bool, record: bool, grant: int)
    requires Chained(s.pool)
    ensures var t := PallocSmall(s, size, aligned, record, grant).0;
            forall i :: 0 <= i < |t.pool.blocks| ==>
              if i < |s.pool.blocks| then t.pool.blocks[i].base == s.pool.blocks[i].base
              else grant != 0 && t.pool.blocks[i].base == grant
  {
    hide AlignUp, MovedCurrent;
    CountFailuresKeeps(s.pool.blocks, s.pool.current);
  }

  /** cw_palloc and cw_pnalloc keep every range apart; a failed request changes nothing. */
  lemma PallocSafe(s: Sys, size: nat, aligned: bool, g: Grants)
    requires Inv(s) && LegalGrants(s, size, g)
    ensures var (t, m) := Palloc(s, size, aligned, g);
            && Inv(t) && SameShape(s.pool, t.pool) && Served(s, t, m, size, false)
            && (aligned && size <= s.pool.max && m != 0 ==> AlignedTo(m, s.pool.align))
  {
    hide PallocSmall, PallocLarge, LiveOk, RecordsHeld, HostOk, Owning, SameShape, Served, AlignedTo;
    if size <= s.pool.max {
      PallocSmallSafe(s, size, aligned, false, g.block);
    } else {
      PallocLargeSafe(s, size, g);
    }
  }
}
