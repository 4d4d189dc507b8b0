/**
  The search window of the allocator: an exact closed form for pool->current and the failure
  counters in terms of the number of blocks alone.
 */
module PoolWindow {
  import opened PoolModel

  /** Where the search starts in a chain of n blocks. */
  function Start(n: nat): nat {
    if n > 7 then n - 7 else 0
  }

  /** The failure counter of block i in a chain of n blocks. */
  function Failures(n: nat, i: nat): nat {
    if i < Start(n) then 6 else if n >= i + 2 then n - i - 2 else 0
  }

  ghost predicate Window(p: Pool) {
    && p.blocks != []
    && p.current == Start(|p.blocks|)
    && forall i :: 0 <= i < |p.blocks| ==> p.blocks[i].failed == Failures(|p.blocks|, i)
  }

  lemma {:induction false} MovedCurrentClosed(blocks: seq<Block>, k: nat, current: nat)
    requires current <= k < |blocks| && k >= Start(|blocks|)
    requires forall i :: 0 <= i < |blocks| ==> blocks[i].failed == Failures(|blocks|, i)
    ensures MovedCurrent(blocks, k, current) == if k == Start(|blocks|) && |blocks| >= 7 then k + 1 else current
    decreases |blocks| - k
  {
    if k < |blocks| - 1 {
      MovedCurrentClosed(blocks, k + 1, if blocks[k].failed > 4 then k + 1 else current);
    }
  }

  /** Adding a block moves the window on by the closed form. */
  lemma BlockKeepsWindow(s: Sys, size: nat, record: bool, grant: int)
    requires Chained(s.pool) && Window(s.pool)
    ensures Window(PallocBlock(s, size, record, grant).0.pool)
  {
    hide AlignUp;
    if grant != 0 {
      MovedCurrentClosed(s.pool.blocks, s.pool.current, s.pool.current);
      var q := PallocBlock(s, size, record, grant).0.pool;
      forall i | 0 <= i < |q.blocks| ensures q.blocks[i].failed == Failures(|q.blocks|, i) {
        if i < |s.pool.blocks| {
          assert s.pool.blocks[i].failed == Failures(|s.pool.blocks|, i);
        }
      }
    }
  }

  lemma SmallKeepsWindow(s: Sys, size: nat, aligned: bool, record: bool, grant: int)
    requires Chained(s.pool) && Window(s.pool)
    ensures Window(PallocSmall(s, size, aligned, record, grant).0.pool)
  {
    hide PallocBlock, AlignUp, Candidate;
    BlockKeepsWindow(s, size, record, grant);
  }

  lemma PallocKeepsWindow(s: Sys, size: nat, aligned: bool, g: Grants)
    requires Chained(s.pool) && Window(s.pool)
    ensures Window(Palloc(s, size, aligned, g).0.pool)
  {
    hide PallocSmall;
    SmallKeepsWindow(s, size, aligned, false, g.block);
    SmallKeepsWindow(s.(host := s.host[g.chunk := size]), LARGE_RECORD, true, true, g.block);
  }
}
