/**
  Conservation of host memory: what the pool owns is exactly what it obtained, so what the host
  holds beyond that never changes.
 */
module PoolConserve {
  import opened PoolModel
  import opened PoolSafety
  import opened PoolWindow

  function Bases(blocks: seq<Block>): set<int> {
    set i | 0 <= i < |blocks| :: blocks[i].base
  }

  function Chunks(large: seq<Large>): set<int> {
    set k | 0 <= k < |large| && large[k].alloc != 0 :: large[k].alloc
  }

  /** The host ranges the pool would free. */
  function Owned(p: Pool): set<int> {
    Bases(p.blocks) + Chunks(p.large)
  }

  /** The host ranges that are not the pool's. */
  function Foreign(s: Sys): map<int, nat> {
    s.host - Owned(s.pool)
  }

  lemma SameBases(blocks: seq<Block>, blocks': seq<Block>)
    requires |blocks| == |blocks'| && forall i :: 0 <= i < |blocks| ==> blocks[i].base == blocks'[i].base
    ensures Bases(blocks) == Bases(blocks')
  {
    assert forall i :: 0 <= i < |blocks| ==> blocks[i].base in Bases(blocks');
    assert forall i :: 0 <= i < |blocks| ==> blocks'[i].base in Bases(blocks);
  }

  lemma OneMoreBase(blocks: seq<Block>, b: Block)
    ensures Bases(blocks + [b]) == Bases(blocks) + {b.base}
  {
    var bs := blocks + [b];
    forall i | 0 <= i < |blocks| ensures blocks[i].base in Bases(bs) { assert bs[i] == blocks[i]; }
    assert bs[|blocks|] == b;
  }

  lemma OneMoreChunk(large: seq<Large>, large': seq<Large>, a: int)
    requires PutIn(large, large', a) && a != 0
    ensures Chunks(large') == Chunks(large) + {a}
  {
    hide PutIn;
    PutInFacts(large, large', a);
  }

  lemma SmallConserves(s: Sys, size: nat, aligned: bool, record: bool, grant: int)
    requires Chained(s.pool) && (grant == 0 || grant !in s.host)
    ensures Foreign(PallocSmall(s, size, aligned, record, grant).0) == Foreign(s)
  {
    hide AlignUp, MovedCurrent, HasRoom, Candidate;
    var t := PallocSmall(s, size, aligned, record, grant).0;
    var j := FirstFit(s.pool.blocks, s.pool.current, s.pool.align, aligned, size);
    if j < |s.pool.blocks| {
      SameBases(s.pool.blocks, t.pool.blocks);
    } else if grant != 0 {
      CountFailuresKeeps(s.pool.blocks, s.pool.current);
      var bs := CountFailures(s.pool.blocks, s.pool.current);
      SameBases(s.pool.blocks, bs);
      OneMoreBase(bs, t.pool.blocks[|bs|]);
    }
  }

  lemma LargeConserves(s: Sys, size: nat, g: Grants)
    requires Chained(s.pool) && LegalGrants(s, size, g) && size > s.pool.max
    ensures Foreign(PallocLarge(s, size, g).0) == Foreign(s)
  {
    hide PallocSmall;
    if g.chunk != 0 {
      var s1 := s.(host := s.host[g.chunk := size]);
      var k := FreeRecord(s.pool.large, 0);
      if k < |s.pool.large| && k < 5 {
        var large := s.pool.large[k := s.pool.large[k].(alloc := g.chunk)];
        OneMoreChunk(s.pool.large, large, g.chunk);
        ForeignAttach(s, s1, large, g.chunk, size);
      } else {
        var (t, rec) := PallocSmall(s1, LARGE_RECORD, true, true, g.block);
        SmallConserves(s1, LARGE_RECORD, true, true, g.block);
        SmallKeepsLarge(s1, LARGE_RECORD, true, true, g.block);
        if rec != 0 {
          var large := [Large(rec, g.chunk)] + t.pool.large;
          assert large[1..] == t.pool.large;
          OneMoreChunk(t.pool.large, large, g.chunk);
          ForeignAttach(s, t, large, g.chunk, size);
        }
      }
    }
  }

  lemma SmallKeepsLarge(s: Sys, size: nat, aligned: bool, record: bool, grant: int)
    requires Chained(s.pool)
    ensures PallocSmall(s, size, aligned, record, grant).0.pool.large == s.pool.large
  {
  }

  /** A chunk that has just come and is now owned leaves the rest as it was. */
  lemma ForeignAttach(s: Sys, t: Sys, large: seq<Large>, a: int, size: nat)
    requires a !in s.host && Foreign(t) == Foreign(s.(host := s.host[a := size]))
    requires Chunks(large) == Chunks(t.pool.large) + {a} && t.pool.large == s.pool.large
    ensures Foreign(t.(pool := t.pool.(large := large))) == Foreign(s)
  {
    var u := t.(pool := t.pool.(large := large));
    assert Owned(u.pool) == Owned(t.pool) + {a};
    assert Foreign(u) == Foreign(t) - {a};
    assert s.host[a := size] - Owned(s.pool) - {a} == s.host - Owned(s.pool);
  }

  lemma PallocConserves(s: Sys, size: nat, aligned: bool, g: Grants)
    requires Chained(s.pool) && LegalGrants(s, size, g)
    ensures Foreign(Palloc(s, size, aligned, g).0) == Foreign(s)
  {
    hide PallocSmall, PallocLarge, Foreign;
    if size <= s.pool.max {
      SmallConserves(s, size, aligned, false, g.block);
    } else {
      LargeConserves(s, size, g);
    }
  }

  lemma CreatedOk(host: map<int, nat>, size: nat, align: nat, grant: int)
    requires HostOk(host) && FreshRange(host, grant, size)
    requires IsAlignment(align) && POOL_HEADER <= size && AlignedTo(size, align)
    ensures var s := Created(host, size, align, grant); Inv(s) && Window(s.pool) && Foreign(s) == host
  {
    var s := Created(host, size, align, grant);
    HostGrows(host, grant, size);
    assert BlockOk(s.pool, 0);
    assert Bases(s.pool.blocks) == {grant} by { OneMoreBase([], s.pool.blocks[0]); assert Bases([]) == {}; }
  }

  /** A grant to somebody else is somebody else's. */
  lemma GrantIsForeign(s: Sys, a: int, n: nat)
    requires Inv(s) && FreshRange(s.host, a, n)
    ensures Foreign(s.(host := s.host[a := n])) == Foreign(s)[a := n]
  {
    hide Geometry, HostOk, LiveOk, RecordsHeld;
    assert a !in Owned(s.pool);
  }

  /** Whatever happened to the host, every range the pool owns is still there. */
  ghost predicate Spared(s: Sys, host: map<int, nat>) {
    forall a :: a in s.host && a in Owned(s.pool) ==> a in host && host[a] == s.host[a]
  }

  /** Nothing in the pool depends on host ranges it does not own. */
  lemma OthersKeepInv(s: Sys, host: map<int, nat>)
    requires Inv(s) && HostOk(host) && Spared(s, host)
    ensures Inv(s.(host := host))
  {
    hide Geometry, HostOk, RecordHeld;
    var t := s.(host := host);
    forall i | 0 <= i < |s.pool.blocks| ensures s.pool.blocks[i].base in Owned(s.pool) {
      assert s.pool.blocks[i].base in Bases(s.pool.blocks);
    }
    forall k | 0 <= k < |s.pool.large| && s.pool.large[k].alloc != 0 ensures s.pool.large[k].alloc in Owned(s.pool) {
      assert s.pool.large[k].alloc in Chunks(s.pool.large);
    }
    assert Owning(t);
    forall h | 0 <= h < |t.live| ensures Housed(t, t.live[h]) {
      assert Housed(s, s.live[h]);
    }
    forall h, h' | 0 <= h < h' < |t.live| ensures Apart(t.live[h], t.live[h']) {
      assert Apart(s.live[h], s.live[h']);
    }
    RecordsStay(s, t);
  }

  /** Another client frees one of its ranges. */
  lemma FreeKeepsInv(s: Sys, a: int)
    requires Inv(s) && a in Foreign(s)
    ensures var t := s.(host := s.host - {a}); Inv(t) && Foreign(t) == Foreign(s) - {a}
  {
    hide Geometry, Owning, LiveOk, RecordsHeld;
    OthersKeepInv(s, s.host - {a});
  }
}
