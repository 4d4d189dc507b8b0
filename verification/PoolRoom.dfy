/**
  Room is not lost: what a request leaves of a block stays usable, in the first block and in every
  one added behind it, and what is given back at the tail of the first block is usable again.
 */
module PoolRoom {
  import opened PoolModel
  import opened PoolSafety
  import opened PoolTail

  // ---------------------------------------------------------------- one request behind another

  /** The range handed out last. */
  function Newest(t: Sys): Live
    requires t.live != []
  {
    t.live[|t.live| - 1]
  }

  /** Nothing but the first t.pool.blocks[i].last bytes of a block changes hands, and only in one block. */
  ghost predicate Elsewhere(s: Sys, t: Sys, i: nat) {
    && |s.pool.blocks| <= |t.pool.blocks|
    && forall j :: 0 <= j < |s.pool.blocks| ==>
         && t.pool.blocks[j].base == s.pool.blocks[j].base
         && (j != i ==> t.pool.blocks[j].last == s.pool.blocks[j].last)
  }

  /** A small request is served from one block, and that block is then filled up to the end of the new range. */
  lemma FilledUpTo(s: Sys, size: nat, aligned: bool, record: bool, grant: int)
    requires Inv(s) && (grant == 0 || FreshRange(s.host, grant, BlockSize(s.pool)))
    requires size <= s.pool.max || size == LARGE_RECORD
    ensures var (t, m) := PallocSmall(s, size, aligned, record, grant);
            if m == 0 then t == s
            else
              && t.live == s.live + [Live(m, size, InBlock(Newest(t).home.i), record)]
              && var i := Newest(t).home.i;
                 && s.pool.current <= i < |t.pool.blocks| && t.pool.current <= i && Elsewhere(s, t, i)
                 && t.pool.blocks[i].last == m + size
                 && |t.pool.blocks| == if i == |s.pool.blocks| then i + 1 else |s.pool.blocks|
  {
    hide AlignUp, MovedCurrent, HasRoom, AlignPtr, LiveOk, RecordsHeld, HostOk, Owning, BlockOk, AlignedTo, Candidate;
    CountFailuresKeeps(s.pool.blocks, s.pool.current);
    PallocSmallSafe(s, size, aligned, record, grant);
    var j := FirstFit(s.pool.blocks, s.pool.current, s.pool.align, aligned, size);
    if j < |s.pool.blocks| {
      TakeFromBlock(s, j, size, aligned, record);
    }
  }

  /** A request the host is not asked for: it goes to the first block of the window with room. */
  lemma ServedFrom(s: Sys, k: nat, aligned: bool, record: bool, i: nat)
    requires Inv(s) && s.pool.current <= i < |s.pool.blocks|
    requires Candidate(s.pool.blocks[i], s.pool.align, aligned) + k <= s.pool.blocks[i].end
    ensures var (t, m) := PallocSmall(s, k, aligned, record, 0);
            && m != 0 && t.host == s.host && |t.pool.blocks| == |s.pool.blocks|
            && t.live != [] && Newest(t).home.InBlock? && Newest(t).home.i <= i
            && (Newest(t).home.i == i ==> m == Candidate(s.pool.blocks[i], s.pool.align, aligned))
  {
    hide AlignUp, AlignPtr, LiveOk, RecordsHeld, HostOk, Owning, BlockOk, AlignedTo, Candidate, HasRoom;
    FitTestExact(s, i, aligned, k);
    var j := FirstFit(s.pool.blocks, s.pool.current, s.pool.align, aligned, k);
    TakeFromBlock(s, j, k, aligned, record);
  }

  /** No block of the window before block i has k bytes left. */
  ghost predicate FullBefore(p: Pool, i: nat, k: nat) {
    i <= |p.blocks| && forall j :: p.current <= j < i ==> p.blocks[j].end - p.blocks[j].last < k
  }

  /**
    A range handed out for a small request, in a block just added or in an older one, is followed
    directly by the next unaligned one, whenever that fits and no block before it has room.
   */
  lemma NextIsBehind(s: Sys, size: nat, aligned: bool, record: bool, grant: int, k: nat)
    requires Inv(s) && (grant == 0 || FreshRange(s.host, grant, BlockSize(s.pool)))
    requires size <= s.pool.max || size == LARGE_RECORD
    ensures var (t, m) := PallocSmall(s, size, aligned, record, grant);
            m != 0 ==>
              && t.live != [] && Newest(t).home.InBlock? && Newest(t).home.i < |t.pool.blocks| && Chained(t.pool)
              && var i := Newest(t).home.i;
                 FullBefore(t.pool, i, k) && m + size + k <= t.pool.blocks[i].end ==>
                   var (u, n) := PallocSmall(t, k, false, false, 0);
                   n == m + size && u.host == t.host && |u.pool.blocks| == |t.pool.blocks|
  {
    hide AlignUp, AlignPtr, LiveOk, RecordsHeld, HostOk, Owning, BlockOk, AlignedTo, MovedCurrent, PallocSmall;
    FilledUpTo(s, size, aligned, record, grant);
    PallocSmallSafe(s, size, aligned, record, grant);
    var (t, m) := PallocSmall(s, size, aligned, record, grant);
    if m != 0 {
      var i := Newest(t).home.i;
      if FullBefore(t.pool, i, k) && m + size + k <= t.pool.blocks[i].end {
        ServedFrom(t, k, false, false, i);
        FirstIs(t, k, i);
      }
    }
  }

  lemma FirstIs(s: Sys, k: nat, i: nat)
    requires Inv(s) && s.pool.current <= i < |s.pool.blocks| && FullBefore(s.pool, i, k)
    requires s.pool.blocks[i].last + k <= s.pool.blocks[i].end
    ensures var (t, m) := PallocSmall(s, k, false, false, 0); m == s.pool.blocks[i].last
  {
    hide AlignUp, AlignPtr, LiveOk, RecordsHeld, HostOk, Owning, BlockOk, AlignedTo, HasRoom;
    FitTestExact(s, i, false, k);
    forall j | s.pool.current <= j < i ensures !HasRoom(s.pool.blocks[j], s.pool.align, false, k) {
      FitTestExact(s, j, false, k);
    }
  }

  // ---------------------------------------------------------------- what bounds the room of a block

  /** Range h ends where block i is filled up to; or, in a block behind the first, it has been given back. */
  ghost predicate Fills(s: Sys, i: nat, h: nat)
    requires i < |s.pool.blocks|
  {
    && h < |s.live| && s.live[h].home == InBlock(i)
    && (s.live[h].addr + s.live[h].size == s.pool.blocks[i].last || (i > 0 && s.live[h].size == 0))
  }

  /** Block i is filled no further than its ranges reach. */
  ghost predicate Tight(s: Sys, i: nat)
    requires i < |s.pool.blocks|
  {
    s.pool.blocks[i].last == Lo(s.pool, i) || exists h :: Fills(s, i, h)
  }

  ghost predicate AllTight(s: Sys) {
    forall i :: 0 <= i < |s.pool.blocks| ==> Tight(s, i)
  }

  lemma TightKept(s: Sys, t: Sys, i: nat)
    requires i < |s.pool.blocks| && i < |t.pool.blocks| && Tight(s, i) && s.live <= t.live
    requires t.pool.blocks[i].base == s.pool.blocks[i].base && t.pool.blocks[i].last == s.pool.blocks[i].last
    ensures Tight(t, i)
  {
    if s.pool.blocks[i].last != Lo(s.pool, i) {
      var h :| Fills(s, i, h);
      assert Fills(t, i, h);
    }
  }

  lemma SmallKeepsTight(s: Sys, size: nat, aligned: bool, record: bool, grant: int)
    requires Inv(s) && (grant == 0 || FreshRange(s.host, grant, BlockSize(s.pool))) && AllTight(s)
    requires size <= s.pool.max || size == LARGE_RECORD
    ensures AllTight(PallocSmall(s, size, aligned, record, grant).0)
  {
    hide PallocSmall, LiveOk, RecordsHeld, HostOk, Owning, Tight;
    FilledUpTo(s, size, aligned, record, grant);
    var (t, m) := PallocSmall(s, size, aligned, record, grant);
    if m != 0 {
      forall i | 0 <= i < |t.pool.blocks| ensures Tight(t, i) {
        if i == Newest(t).home.i {
          NewestFills(t, i);
        } else {
          TightKept(s, t, i);
        }
      }
    }
  }

  lemma NewestFills(t: Sys, i: nat)
    requires t.live != [] && Newest(t).home == InBlock(i) && i < |t.pool.blocks|
    requires t.pool.blocks[i].last == Newest(t).addr + Newest(t).size
    ensures Tight(t, i)
  {
    assert Fills(t, i, |t.live| - 1);
  }

  lemma SameBlocksTight(s: Sys, t: Sys)
    requires AllTight(s) && t.pool.blocks == s.pool.blocks && s.live <= t.live
    ensures AllTight(t)
  {
    hide Tight;
    forall i | 0 <= i < |t.pool.blocks| ensures Tight(t, i) {
      TightKept(s, t, i);
    }
  }

  lemma PallocKeepsTight(s: Sys, size: nat, aligned: bool, g: Grants)
    requires Inv(s) && AllTight(s) && Chained(s.pool) && LegalGrants(s, size, g)
    ensures AllTight(Palloc(s, size, aligned, g).0)
  {
    hide PallocSmall, Tight, HostOk, LiveOk, RecordsHeld, Geometry, Owning, FreshRange;
    if size <= s.pool.max {
      SmallKeepsTight(s, size, aligned, false, g.block);
    } else if g.chunk != 0 {
      var s1 := s.(host := s.host[g.chunk := size]);
      GrantKeepsInv(s, g.chunk, size);
      SameBlocksTight(s, s1);
      var t := PallocSmall(s1, LARGE_RECORD, true, true, g.block).0;
      SmallKeepsTight(s1, LARGE_RECORD, true, true, g.block);
      var u := PallocLarge(s, size, g).0;
      var k := FreeRecord(s.pool.large, 0);
      if k < |s.pool.large| && k < 5 { SameBlocksTight(s, u); } else if u != s { SameBlocksTight(t, u); }
    }
  }

  /** A range at the tail of the first block grows, or is given back. */
  lemma ResizeKeepsTight(s: Sys, h: nat, size: nat)
    requires AllTight(s) && h < |s.live| && s.pool.blocks != [] && s.live[h].home == InBlock(0)
    requires s.live[h].addr + s.live[h].size == s.pool.blocks[0].last
    ensures AllTight(Resize(s, h, size))
  {
    var t := Resize(s, h, size);
    forall i | 0 <= i < |t.pool.blocks| ensures Tight(t, i) {
      if i == 0 {
        assert Fills(t, 0, h);
      } else {
        assert Tight(s, i);
        if s.pool.blocks[i].last != Lo(s.pool, i) {
          var k :| Fills(s, i, k);
          assert Fills(t, i, k);
        }
      }
    }
  }

  lemma ReleaseKeepsTight(s: Sys, h: nat)
    requires Inv(s) && AllTight(s) && h < |s.live| && s.live[h].size > 0
    ensures AllTight(Release(s, h))
  {
    hide HostOk, LiveOk, RecordsHeld, Owning, BlockOk, Tight;
    if s.live[h].addr + s.live[h].size == s.pool.blocks[0].last {
      TailIsInHead(s, h);
      ResizeKeepsTight(s, h, 0);
    } else {
      DropKeepsTight(s, h);
    }
  }

  lemma DropKeepsTight(s: Sys, h: nat)
    requires AllTight(s) && h < |s.live| && s.pool.blocks != []
    requires s.live[h].addr + s.live[h].size != s.pool.blocks[0].last
    ensures AllTight(Drop(s, h))
  {
    var t := Drop(s, h);
    forall i | 0 <= i < |t.pool.blocks| ensures Tight(t, i) {
      assert Tight(s, i);
      if s.pool.blocks[i].last != Lo(s.pool, i) {
        var k :| Fills(s, i, k);
        assert Fills(t, i, k);
      }
    }
  }

  // ---------------------------------------------------------------- so the room behind the ranges is usable

  /** Every range of block i ends at e or before, and none has been given back unless the block is the first. */
  ghost predicate FreeFrom(s: Sys, i: nat, e: int)
    requires i < |s.pool.blocks|
  {
    && Lo(s.pool, i) <= e
    && forall h :: 0 <= h < |s.live| && s.live[h].home == InBlock(i) ==>
         s.live[h].addr + s.live[h].size <= e && (i > 0 ==> s.live[h].size > 0)
  }

  lemma FilledNoFurther(s: Sys, i: nat, e: int)
    requires i < |s.pool.blocks| && Tight(s, i) && FreeFrom(s, i, e)
    ensures s.pool.blocks[i].last <= e
  {
  }

  lemma AlignUpMonotone(p: int, q: int, a: nat)
    requires IsAlignment(a) && p <= q
    ensures AlignUp(p, a) <= AlignUp(q, a)
  {
    hide AlignUp, AlignedTo;
    AlignUpFacts(q, a);
    AlignUpBelow(p, a, AlignUp(q, a));
  }

  /** Where the next range would start if the last one ended at e. */
  function StartBehind(e: int, a: nat, aligned: bool): int {
    if aligned then AlignUp(e, a) else e
  }

  /**
    A small request that fits behind the last range of a block in the window is served, and the host
    is not asked.
   */
  lemma RoomIsUsed(s: Sys, i: nat, e: int, k: nat, aligned: bool)
    requires Inv(s) && AllTight(s) && s.pool.current <= i < |s.pool.blocks| && k <= s.pool.max
    requires FreeFrom(s, i, e) && StartBehind(e, s.pool.align, aligned) + k <= s.pool.blocks[i].end
    ensures var (t, m) := Palloc(s, k, aligned, Grants(0, 0)); m != 0 && t.host == s.host
  {
    hide AlignUp, LiveOk, RecordsHeld, HostOk, Owning, PallocSmall, FreeFrom, Tight;
    FilledNoFurther(s, i, e);
    CandidateInBlock(s, i, aligned);
    AlignUpMonotone(s.pool.blocks[i].last, e, s.pool.align);
    AlignNotWrapped(s, i);
    ServedFrom(s, k, aligned, false, i);
  }

  lemma AlignNotWrapped(s: Sys, i: nat)
    requires Inv(s) && i < |s.pool.blocks|
    ensures Candidate(s.pool.blocks[i], s.pool.align, true) == AlignUp(s.pool.blocks[i].last, s.pool.align)
  {
    hide LiveOk, RecordsHeld, HostOk, Owning, AlignUp, AlignedTo;
    var b := s.pool.blocks[i];
    BlockInSpace(s, i);
    BlockEndAligned(s.pool, i);
    AlignUpFacts(b.last, s.pool.align);
    AlignUpBelow(b.last, s.pool.align, b.end);
  }

  /** A new range is in a block exactly when it is no longer than 1023 bytes and fits an empty first block. */
  lemma SmallExactly(s: Sys, size: nat, aligned: bool, g: Grants)
    requires Inv(s) && Chained(s.pool) && LegalGrants(s, size, g)
    ensures var (t, m) := Palloc(s, size, aligned, g);
            m != 0 ==>
              t.live != [] && (Newest(t).home.InBlock? <==> size <= 1023 && size <= BlockSize(s.pool) - 80)
  {
    hide LiveOk, RecordsHeld, HostOk, Owning, PallocSmall, FreshRange;
    if size <= s.pool.max {
      FilledUpTo(s, size, aligned, false, g.block);
    }
  }

  /**
    A large request takes nothing from the blocks while one of the first five records points to
    nothing; otherwise it takes one record.
   */
  lemma RecordsAreReused(s: Sys, size: nat, g: Grants)
    requires Inv(s) && size > s.pool.max && LegalGrants(s, size, g)
    ensures var (t, m) := PallocLarge(s, size, g);
            var empty := exists k :: 0 <= k < 5 && k < |s.pool.large| && s.pool.large[k].alloc == 0;
            m != 0 ==>
              && |t.pool.large| == |s.pool.large| + (if empty then 0 else 1)
              && |t.live| == |s.live| + (if empty then 1 else 2)
              && (empty ==> t.pool.blocks == s.pool.blocks)
  {
    hide LiveOk, RecordsHeld, HostOk, Owning, BlockOk, PallocSmall, FreshRange;
    FirstEmpty(s.pool.large, 0);
    if g.chunk != 0 {
      var s1 := s.(host := s.host[g.chunk := size]);
      GrantKeepsInv(s, g.chunk, size);
      FilledUpTo(s1, LARGE_RECORD, true, true, g.block);
    }
  }

  lemma {:induction false} FirstEmpty(large: seq<Large>, k: nat)
    requires k <= |large| && k <= 5
    ensures var j := FreeRecord(large, k);
            (exists i :: k <= i < 5 && i < |large| && large[i].alloc == 0) <==> j < 5 && j < |large|
    decreases |large| - k
  {
    if k < |large| && k < 5 && large[k].alloc != 0 {
      FirstEmpty(large, k + 1);
    }
  }
}
