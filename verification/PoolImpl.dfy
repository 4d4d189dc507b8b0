/**
  The allocator as the C code has it: blocks linked by `next`, a moving `current`, a linked list
  of large records. Every method is proved against the functions of PoolModel.
 */
module PoolImpl {
  import opened Bytes
  import opened Memory
  import opened PoolModel
  import opened PoolSafety
  import opened PoolTail
  import opened PoolWindow
  import opened PoolConserve

  /** The host allocator and the address space. What the host decides is left open. */
  class Host {
    var live: map<int, nat>
    var mem: Mem
    ghost var refused: nat   // how many requests have failed

    constructor ()
      ensures live == map[] && mem == map[] && refused == 0
    {
      live, mem, refused := map[], map[], 0;
    }

    /** malloc or posix_memalign: fails, or grants an unused range. */
    method Alloc(size: nat) returns (a: int)
      modifies this`live, this`refused
      ensures a == 0 || FreshRange(old(live), a, size)
      ensures live == if a == 0 then old(live) else old(live)[a := size]
      ensures refused == old(refused) + if a == 0 then 1 else 0
    {
      a := *;
      if !FreshRange(live, a, size) {
        a, refused := 0, refused + 1;
      } else {
        live := live[a := size];
      }
    }

    /** free, which must be given a range in use. */
    method Free(a: int)
      requires a in live
      modifies this`live
      ensures live == old(live) - {a}
    {
      live := live - {a};
    }

    /** cw_memcpy. */
    method Copy(a: int, b: int, n: nat)
      modifies this`mem
      ensures mem == Store(old(mem), a, Load(old(mem), b, n))
    {
      mem := Store(mem, a, Load(mem, b, n));
    }

    /** cw_cpystrn, of bytes without their NUL and the NUL. */
    method Write(a: int, bs: Bytes)
      modifies this`mem
      ensures mem == Store(old(mem), a, bs)
    {
      mem := Store(mem, a, bs);
    }

    /** cw_memzero. */
    method Zero(a: int, n: nat)
      modifies this`mem
      ensures mem == Store(old(mem), a, seq(n, i => 0))
    {
      mem := Store(mem, a, seq(n, i => 0));
    }
  }

  /** cw_pool_data_t, at the start of a block. */
  class BlockNode {
    const base: int
    const end: int
    ghost const pos: nat   // the place in the chain
    var last: int
    var failed: nat
    var next: BlockNode?

    constructor (base: int, last: int, end: int, ghost pos: nat)
      ensures this.base == base && this.last == last && this.end == end && this.pos == pos
      ensures failed == 0 && next == null
    {
      this.base, this.last, this.end, this.pos, failed, next := base, last, end, pos, 0, null;
    }
  }

  /** cw_pool_large_t, in memory taken from the pool. */
  class LargeNode {
    const record: int
    ghost const pos: nat   // the place in the list, counted from its end
    var alloc: int
    var next: LargeNode?

    constructor (record: int, alloc: int, next: LargeNode?, ghost pos: nat)
      ensures this.record == record && this.alloc == alloc && this.next == next && this.pos == pos
    {
      this.record, this.alloc, this.next, this.pos := record, alloc, next, pos;
    }
  }

  class Pool {
    const host: Host
    const align: nat
    const max: nat
    var head: BlockNode
    var current: BlockNode
    var large: LargeNode?

    ghost var chain: seq<BlockNode>   // the blocks, from head on
    ghost var list: seq<LargeNode>    // the large records, from large on
    ghost var sys: Sys                // the pool and its host as a value

    /** The blocks from head on are a finite list, and current is one of them. */
    ghost predicate ChainOk()
      reads this, chain
    {
      && chain != [] && chain[0] == head
      && sys.pool.current < |chain| && chain[sys.pool.current] == current
      && (forall i {:trigger chain[i].next} :: 0 <= i < |chain| ==>
            chain[i].next == if i + 1 < |chain| then chain[i + 1] else null)
      && (forall i {:trigger chain[i].pos} :: 0 <= i < |chain| ==> chain[i].pos == i)
    }

    ghost predicate BlocksMatch()
      reads this, chain
    {
      && |sys.pool.blocks| == |chain|
      && forall i {:trigger chain[i].last} {:trigger sys.pool.blocks[i]} :: 0 <= i < |chain| ==>
           sys.pool.blocks[i] == Block(chain[i].base, chain[i].last, chain[i].end, chain[i].failed)
    }

    /** The large records are a finite list. */
    ghost predicate ListOk()
      reads this, list
    {
      && large == (if list == [] then null else list[0])
      && (forall k {:trigger list[k].next} :: 0 <= k < |list| ==>
            list[k].next == if k + 1 < |list| then list[k + 1] else null)
      && (forall k {:trigger list[k].pos} :: 0 <= k < |list| ==> list[k].pos == |list| - 1 - k)
      && |sys.pool.large| == |list|
      && forall k {:trigger list[k].alloc} {:trigger sys.pool.large[k]} :: 0 <= k < |list| ==>
           sys.pool.large[k] == Large(list[k].record, list[k].alloc)
    }

    ghost predicate Shape()
      reads this, chain, list
    {
      ChainOk() && BlocksMatch() && ListOk() && sys.pool.max == max && sys.pool.align == align
    }

    /** All that holds of the pool itself, whatever other clients have done to the host since. */
    ghost predicate Coherent()
      reads this, chain, list
    {
      Shape() && Inv(sys) && Window(sys.pool)
    }

    ghost predicate Valid()
      reads this, host, chain, list
    {
      Coherent() && sys.host == host.live
    }

    /** Other clients of the host have been granted ranges or have freed theirs. */
    ghost method Notice()
      requires Coherent() && HostOk(host.live) && Spared(sys, host.live)
      modifies this`sys
      ensures Valid() && sys == old(sys).(host := host.live)
      ensures Foreign(sys) == host.live - Owned(sys.pool)
    {
      hide Inv, Window;
      OthersKeepInv(sys, host.live);
      sys := sys.(host := host.live);
    }

    /** The pool header of cw_create_pool, in a chunk the host has just granted. */
    constructor (host: Host, size: nat, align: nat, addr: int, ghost before: map<int, nat>)
      requires POOL_HEADER <= size && IsAlignment(align) && AlignedTo(size, align)
      requires HostOk(before) && FreshRange(before, addr, size) && host.live == before[addr := size]
      ensures Valid() && this.host == host && fresh(chain) && list == []
      ensures sys == Created(before, size, align, addr)
    {
      this.host, this.align := host, align;
      var node := new BlockNode(addr, addr + POOL_HEADER, addr + size, 0);
      max := if size - POOL_HEADER < MAX_SMALL then size - POOL_HEADER else MAX_SMALL;
      head, current, large := node, node, null;
      chain, list, sys := [node], [], Created(before, size, align, addr);
      CreatedOk(before, size, align, addr);
    }

    /** Nodes are only added, and the added ones are new. */
    twostate predicate Grows()
      reads this
    {
      && (forall b :: b in chain ==> b in old(chain) || fresh(b))
      && (forall l :: l in list ==> l in old(list) || fresh(l))
    }

    /** One turn of that walk: a block that has failed more than four times is passed for good. */
    method CountOne(p: BlockNode, ghost k: nat)
      requires ChainOk() && k + 1 < |chain| && p == chain[k] && sys.pool.current <= k
      modifies this`current, this`sys, p`failed
      ensures ChainOk() && p.failed == old(p.failed) + 1
      ensures var passed := if old(p.failed) > 4 then k + 1 else old(sys).pool.current;
              sys == old(sys).(pool := old(sys).pool.(current := passed))
    {
      if p.failed > 4 {
        current := p.next;
        sys := sys.(pool := sys.pool.(current := k + 1));
      }
      p.failed := p.failed + 1;
    }

    /** The walk of cw_palloc_block from `current` to the last block, counting one more failure on the way. */
    method CountFailures() returns (p: BlockNode)
      requires ChainOk() && BlocksMatch()
      modifies this`current, this`sys, chain`failed
      ensures ChainOk() && p == chain[|chain| - 1]
      ensures forall i {:trigger chain[i].failed} :: 0 <= i < |chain| ==>
                chain[i].failed == old(chain[i].failed) + if old(sys).pool.current <= i < |chain| - 1 then 1 else 0
      ensures var q := old(sys).pool;
              sys == old(sys).(pool := q.(current := MovedCurrent(q.blocks, q.current, q.current)))
    {
      hide MovedCurrent;
      ghost var q := sys.pool;
      p := current;
      ghost var k := q.current;
      while p.next != null
        invariant ChainOk() && k < |chain| && p == chain[k] && q.current <= sys.pool.current <= k
        invariant sys == old(sys).(pool := q.(current := sys.pool.current))
        invariant forall i {:trigger chain[i].failed} :: 0 <= i < |chain| ==>
                    chain[i].failed == old(chain[i].failed) + if q.current <= i < k then 1 else 0
        invariant MovedCurrent(q.blocks, k, sys.pool.current) == MovedCurrent(q.blocks, q.current, q.current)
        decreases |chain| - k
      {
        assert p.pos == k && p.failed == q.blocks[k].failed && p.next == chain[k + 1];
        MovedOn(q.blocks, k, sys.pool.current);
        CountOne(p, k);
        p, k := p.next, k + 1;
      }
      MovedOn(q.blocks, k, sys.pool.current);
    }

    /** The new block is linked behind the last one. */
    method Append(p: BlockNode, node: BlockNode)
      requires ChainOk() && p == chain[|chain| - 1] && node.next == null && node.pos == |chain|
      modifies this`chain, p`next
      ensures ChainOk() && chain == old(chain) + [node]
    {
      assert node != p && p.pos == |chain| - 1;
      p.next := node;
      chain := chain + [node];
    }

    /** The part of cw_palloc_block behind the host's grant: a new block, the walk, the link. */
    method AddBlock(addr: int, psize: nat, size: nat, ghost record: bool) returns (m: int)
      requires ChainOk() && BlocksMatch() && sys.pool.align == align
      requires addr != 0 && BlockSize(sys.pool) == psize
      modifies this`current, this`chain, this`sys, chain
      ensures ChainOk() && BlocksMatch()
      ensures forall b :: b in chain ==> b in old(chain) || fresh(b)
      ensures (sys, m) == PoolModel.PallocBlock(old(sys), size, record, addr)
    {
      hide AlignUp, MovedCurrent;
      ghost var s := sys;
      m := AlignUp(addr + BLOCK_HEADER, align);
      var node := new BlockNode(addr, m + size, addr + psize, |chain|);
      var p := CountFailures();
      Append(p, node);
      sys := PoolModel.PallocBlock(s, size, record, addr).0;
    }

    /** cw_palloc_block. */
    method PallocBlock(size: nat, ghost record: bool) returns (m: int, ghost grant: int)
      requires Valid() && (size <= max || size == LARGE_RECORD)
      modifies this, host`live, host`refused, chain
      ensures Valid() && Grows() && list == old(list)
      ensures grant == 0 || FreshRange(old(host.live), grant, BlockSize(old(sys).pool))
      ensures (sys, m) == PoolModel.PallocBlock(old(sys), size, record, grant)
      ensures host.refused >= old(host.refused) && (m == 0 <==> host.refused > old(host.refused))
    {
      hide Inv, Window, FreshRange, Served, SameShape, AlignUp, MovedCurrent, AlignedTo;
      ghost var s := sys;
      SizeKnown(s);
      assert sys.pool.blocks[0] == Block(head.base, head.last, head.end, head.failed);
      var psize := head.end - head.base;
      var addr := host.Alloc(psize);
      grant := addr;
      if addr == 0 {
        return 0, 0;
      }
      m := AddBlock(addr, psize, size, record);
      NewBlockServes(s, size, record, grant);
      BlockKeepsWindow(s, size, record, grant);
    }

    /** The loop of cw_palloc_small: the first block from `current` on with room, and where the range would start. */
    method FindRoom(size: nat, aligned: bool) returns (p: BlockNode?, m: int, ghost i: nat)
      requires ChainOk() && BlocksMatch() && sys.pool.align == align
      ensures var j := FirstFit(sys.pool.blocks, sys.pool.current, align, aligned, size);
              if j < |chain| then p == chain[j] && m == Candidate(sys.pool.blocks[j], align, aligned) else p == null
      ensures i == FirstFit(sys.pool.blocks, sys.pool.current, align, aligned, size)
    {
      hide AlignPtr;
      p, i, m := current, sys.pool.current, 0;
      while p != null
        invariant i <= |chain| && p == if i < |chain| then chain[i] else null
        invariant FirstFit(sys.pool.blocks, i, align, aligned, size)
               == FirstFit(sys.pool.blocks, sys.pool.current, align, aligned, size)
        decreases |chain| - i
      {
        m := p.last;
        if aligned {
          m := AlignPtr(m, align);
        }
        assert sys.pool.blocks[i] == Block(p.base, p.last, p.end, p.failed);
        if Sub64(p.end, m) >= size {
          break;
        }
        p := p.next;
        i := i + 1;
      }
    }

    /** The range starts at m in block i, which has room for it. */
    method Bump(p: BlockNode, ghost i: nat, m: int, size: nat, ghost aligned: bool, ghost record: bool)
      requires Valid() && (size <= max || size == LARGE_RECORD)
      requires i == FirstFit(sys.pool.blocks, sys.pool.current, align, aligned, size) < |chain|
      requires p == chain[i] && m == Candidate(sys.pool.blocks[i], align, aligned)
      modifies this`sys, p`last
      ensures Valid() && m != 0
      ensures (sys, m) == PoolModel.PallocSmall(old(sys), size, aligned, record, 0)
    {
      hide Inv, Window, FreshRange, Served, SameShape, AlignedTo, HasRoom, Candidate;
      ghost var s := sys;
      SizeKnown(s);
      assert p.pos == i;
      PallocSmallSafe(s, size, aligned, record, 0);
      SmallKeepsWindow(s, size, aligned, record, 0);
      RoomNotNull(s, i, aligned);
      p.last := m + size;
      sys := PoolModel.PallocSmall(s, size, aligned, record, 0).0;
    }

    /** cw_palloc_small. */
    method PallocSmall(size: nat, aligned: bool, ghost record: bool) returns (m: int, ghost grant: int)
      requires Valid() && (size <= max || size == LARGE_RECORD)
      modifies this, host`live, host`refused, chain
      ensures Valid() && Grows() && list == old(list)
      ensures grant == 0 || FreshRange(old(host.live), grant, BlockSize(old(sys).pool))
      ensures (sys, m) == PoolModel.PallocSmall(old(sys), size, aligned, record, grant)
      ensures host.refused >= old(host.refused) && (m == 0 <==> host.refused > old(host.refused))
    {
      hide Inv, Window, FreshRange, Served, SameShape, AlignUp, AlignedTo, HasRoom;
      ghost var s := sys;
      SizeKnown(s);
      var p;
      ghost var i;
      p, m, i := FindRoom(size, aligned);
      if p == null {
        m, grant := PallocBlock(size, record);
      } else {
        grant := 0;
        Bump(p, i, m, size, aligned, record);
      }
    }

    /** A new record in front of the large list. */
    method PutFront(record: int, alloc: int)
      requires ChainOk() && BlocksMatch() && ListOk()
      modifies this`large, this`list, this`sys
      ensures ChainOk() && BlocksMatch() && ListOk() && |list| > 0 && fresh(list[0]) && list[1..] == old(list)
      ensures sys == old(sys).(pool := old(sys).pool.(large := [Large(record, alloc)] + old(sys).pool.large))
    {
      var node := new LargeNode(record, alloc, large, |list|);
      large := node;
      list := [node] + list;
      sys := sys.(pool := sys.pool.(large := [Large(record, alloc)] + sys.pool.large));
    }

    /** The chunk goes into the empty record n of the large list. */
    method Refill(ghost s: Sys, l: LargeNode, ghost n: nat, chunk: int, size: nat)
      requires Valid() && Inv(s) && Window(s.pool) && size > s.pool.max
      requires sys == s.(host := s.host[chunk := size]) && FreshRange(s.host, chunk, size)
      requires n == FreeRecord(s.pool.large, 0) && n < |list| && n < 5 && l == list[n]
      modifies l`alloc, this`sys
      ensures Valid() && (sys, chunk) == PoolModel.PallocLarge(s, size, Grants(chunk, 0))
      ensures LegalGrants(s, size, Grants(chunk, 0))
    {
      hide Inv, Window, Served, SameShape, AlignedTo, FreshRange, PoolModel.PallocSmall;
      SizeKnown(s);
      GrantNotNull(s.host, chunk, size);
      assert l.pos == |list| - 1 - n;
      l.alloc := chunk;
      sys := PoolModel.PallocLarge(s, size, Grants(chunk, 0)).0;
      PallocLargeSafe(s, size, Grants(chunk, 0));
      PallocKeepsWindow(s, size, true, Grants(chunk, 0));
    }

    /** The record of a chunk, in room just taken from the pool for it. */
    method Record(ghost s: Sys, ghost t: Sys, rec: int, chunk: int, size: nat, ghost g: Grants)
      requires Valid() && sys == t && Inv(s) && Window(s.pool) && size > s.pool.max && rec != 0
      requires chunk != 0 && g.chunk == chunk && LegalGrants(s, size, g)
      requires (t, rec) == PoolModel.PallocSmall(s.(host := s.host[chunk := size]), LARGE_RECORD, true, true, g.block)
      requires var k := FreeRecord(s.pool.large, 0); k >= |s.pool.large| || k >= 5
      modifies this`large, this`list, this`sys
      ensures Valid() && |list| > 0 && fresh(list[0]) && list[1..] == old(list)
      ensures (sys, chunk) == PoolModel.PallocLarge(s, size, g)
    {
      hide Inv, Window, Served, SameShape, AlignedTo, FreshRange, PoolModel.PallocSmall;
      SizeKnown(s);
      SmallKeepsLarge(s.(host := s.host[chunk := size]), LARGE_RECORD, true, true, g.block);
      PutFront(rec, chunk);
      sys := PoolModel.PallocLarge(s, size, g).0;
      PallocLargeSafe(s, size, g);
      PallocKeepsWindow(s, size, true, g);
    }

    /** The chunk goes back, and the pool is as it was before the chunk came. */
    method GiveBack(ghost s: Sys, chunk: int, size: nat)
      requires Valid() && Inv(s) && Window(s.pool) && chunk !in s.host && sys == s.(host := s.host[chunk := size])
      modifies this`sys, host`live
      ensures Valid() && sys == s
    {
      hide Inv, Window;
      host.Free(chunk);
      assert host.live == s.host;
      sys := s;
    }

    /** The part of cw_palloc_large behind its loop: a record of its own for the chunk, or the chunk goes back. */
    method AddRecord(ghost s: Sys, chunk: int, size: nat) returns (p: int, ghost g: Grants)
      requires Valid() && Inv(s) && Window(s.pool) && size > max
      requires FreshRange(s.host, chunk, size) && sys == s.(host := s.host[chunk := size])
      requires var k := FreeRecord(s.pool.large, 0); k >= |s.pool.large| || k >= 5
      modifies this, host`live, host`refused, chain
      ensures Valid() && Grows()
      ensures LegalGrants(s, size, g) && (sys, p) == PoolModel.PallocLarge(s, size, g)
      ensures host.refused >= old(host.refused) && (p == 0 <==> host.refused > old(host.refused))
    {
      hide Inv, Window, SameShape, AlignedTo, FreshRange, PoolModel.PallocSmall, FreeRecord;
      ghost var s1 := sys;
      SizeKnown(s);
      GrantNotNull(s.host, chunk, size);
      var rec, grant := PallocSmall(LARGE_RECORD, true, true);
      g := Grants(chunk, grant);
      PallocSmallSafe(s1, LARGE_RECORD, true, true, grant);
      if rec == 0 {
        GiveBack(s, chunk, size);
        p := 0;
      } else {
        Record(s, sys, rec, chunk, size, g);
        p := chunk;
      }
    }

    /** The loop of cw_palloc_large: an empty record among the first five. */
    method FindRecord() returns (l: LargeNode?, ghost n: nat)
      requires ListOk()
      ensures var k := FreeRecord(sys.pool.large, 0); l == if k < |list| && k < 5 then list[k] else null
      ensures n == FreeRecord(sys.pool.large, 0)
    {
      l := large;
      var i := 0;
      while l != null
        invariant i <= |list| && i <= 5 && l == if i < |list| && i < 5 then list[i] else null
        invariant FreeRecord(sys.pool.large, i) == FreeRecord(sys.pool.large, 0)
        decreases |list| - i
      {
        assert sys.pool.large[i] == Large(l.record, l.alloc);
        if l.alloc == 0 {
          return l, i;
        }
        l := if i > 3 then null else l.next;
        i := i + 1;
      }
      n := i;
    }

    /** cw_alloc of the chunk. */
    method AllocChunk(size: nat) returns (p: int)
      requires Valid()
      modifies this`sys, host`live, host`refused
      ensures Valid() && (p == 0 || FreshRange(old(host.live), p, size))
      ensures sys == if p == 0 then old(sys) else old(sys).(host := old(sys).host[p := size])
      ensures host.refused == old(host.refused) + if p == 0 then 1 else 0
    {
      hide Inv, Window, FreshRange;
      p := host.Alloc(size);
      if p != 0 {
        GrantKeepsInv(sys, p, size);
        sys := sys.(host := sys.host[p := size]);
      }
    }

    /** cw_palloc_large. */
    method PallocLarge(size: nat) returns (p: int, ghost g: Grants)
      requires Valid() && size > max
      modifies this, host`live, host`refused, chain, list
      ensures Valid() && Grows()
      ensures LegalGrants(old(sys), size, g)
      ensures (sys, p) == PoolModel.PallocLarge(old(sys), size, g)
      ensures host.refused >= old(host.refused) && (p == 0 <==> host.refused > old(host.refused))
    {
      hide Inv, Window, FreshRange, Served, SameShape, PoolModel.PallocSmall, ChainOk, BlocksMatch;
      ghost var s := sys;
      SizeKnown(s);
      p := AllocChunk(size);
      g := Grants(p, 0);
      if p == 0 {
        return;
      }
      var l, n := FindRecord();
      if l != null {
        Refill(s, l, n, p, size);
      } else {
        p, g := AddRecord(s, p, size);
      }
    }

    /** cw_palloc, and cw_pnalloc when not aligned. */
    method Palloc(size: nat, aligned: bool) returns (p: int, ghost g: Grants)
      requires Valid()
      modifies this, host`live, host`refused, chain, list
      ensures Valid() && Grows()
      ensures LegalGrants(old(sys), size, g)
      ensures (sys, p) == PoolModel.Palloc(old(sys), size, aligned, g)
      ensures host.refused >= old(host.refused) && (p == 0 <==> host.refused > old(host.refused))
    {
      hide Inv, Window, FreshRange, PoolModel.PallocSmall, PoolModel.PallocLarge;
      SizeKnown(sys);
      if size <= max {
        ghost var grant;
        p, grant := PallocSmall(size, aligned, false);
        g := Grants(0, grant);
      } else {
        p, g := PallocLarge(size);
      }
    }

    /** cw_pcalloc. */
    method Pcalloc(size: nat) returns (p: int, ghost g: Grants)
      requires Valid()
      modifies this, host, chain, list
      ensures Valid() && Grows()
      ensures LegalGrants(old(sys), size, g)
      ensures (sys, p) == PoolModel.Palloc(old(sys), size, true, g)
      ensures host.refused >= old(host.refused) && (p == 0 <==> host.refused > old(host.refused))
      ensures host.mem == if p == 0 then old(host.mem) else Store(old(host.mem), p, seq(size, i => 0))
    {
      hide Inv, Window, FreshRange, PoolModel.Palloc;
      p, g := Palloc(size, true);
      if p != 0 {
        host.Zero(p, size);
      }
    }

    lemma HeadIs()
      requires Valid()
      ensures sys.pool.blocks[0] == Block(head.base, head.last, head.end, head.failed)
    {
      assert chain[0] == head && 0 < |sys.pool.blocks|;
    }

    /** d.last of the head block moves by the change in size of range h, which ends there. */
    method ResizeTail(ghost h: nat, ghost size: nat, delta: int)
      requires Valid() && h < |sys.live| && !sys.live[h].record && sys.live[h].size > 0
      requires sys.live[h].addr + sys.live[h].size == head.last
      requires delta == size - sys.live[h].size && head.last + delta <= head.end
      modifies this`sys, head`last
      ensures Valid() && sys == Resize(old(sys), h, size)
    {
      hide Inv, Window, FreshRange, SameShape;
      ghost var s := sys;
      assert s.pool.blocks[0] == Block(head.base, head.last, head.end, head.failed);
      ResizeSafe(s, h, size);
      assert head.pos == 0;
      head.last := head.last + delta;
      sys := Resize(s, h, size);
      WindowKept(s, h, size);
    }

    /** A range given back: d.last moves down if it ends there, otherwise the pool never learns of it. */
    method Release(ghost h: nat, end: int, size: nat)
      requires Valid() && h < |sys.live| && !sys.live[h].record && sys.live[h].size == size > 0
      requires end == sys.live[h].addr + size
      modifies this`sys, head`last
      ensures Valid() && sys == PoolTail.Release(old(sys), h)
    {
      hide Inv, Window, SameShape, Resize;
      HeadIs();
      ReleaseSafe(sys, h);
      if end == head.last {
        EndsBelow(sys);
        ResizeTail(h, 0, (0 as int) - size);
      } else {
        sys := Drop(sys, h);
      }
    }

    /** l->alloc and l->next, which lie in memory the host must still hold for the pool. */
    method ReadRecord(l: LargeNode) returns (alloc: int, next: LargeNode?)
      requires Held(host.live, l.record, LARGE_RECORD)
      ensures alloc == l.alloc && next == l.next
    {
      alloc, next := l.alloc, l.next;
    }

    /** p->d.next, the same. */
    method ReadNext(p: BlockNode) returns (next: BlockNode?)
      requires Held(host.live, p.base, BLOCK_HEADER)
      ensures next == p.next
    {
      next := p.next;
    }

    /** One turn of the first loop of cw_destroy_pool. */
    method FreeChunk(l: LargeNode, ghost k: nat) returns (next: LargeNode?)
      requires Inv(sys) && ListOk() && k < |list| && l == list[k]
      requires host.live == sys.host - Chunks(sys.pool.large[..k])
      modifies host`live
      ensures host.live == sys.host - Chunks(sys.pool.large[..k + 1]) && next == l.next
    {
      hide Inv, Held;
      assert sys.pool.large[k] == Large(l.record, l.alloc);
      OneMoreLarge(sys.pool.large, k);
      SomeChunks(sys.pool.large, k);
      SomeChunks(sys.pool.large, k + 1);
      RecordStillHeld(sys, k, Chunks(sys.pool.large[..k]));
      RecordStillHeld(sys, k, Chunks(sys.pool.large[..k + 1]));
      var alloc;
      alloc, next := ReadRecord(l);
      if alloc != 0 {
        StillHeld(sys, k);
        host.Free(alloc);
      }
      assert host.live == sys.host - Chunks(sys.pool.large[..k + 1]);
      alloc, next := ReadRecord(l);
    }

    /**
      cw_destroy_pool: every chunk and every block goes back to the host, and neither a large
      record nor a block is read once its memory has been freed.
     */
    method Destroy()
      requires Valid()
      modifies host`live
      ensures host.live == Foreign(old(sys))
    {
      hide Window;
      OwnedOnce(sys);
      var l := large;
      ghost var k := 0;
      while l != null
        invariant k <= |list| && l == if k < |list| then list[k] else null
        invariant host.live == sys.host - Chunks(sys.pool.large[..k])
        decreases |list| - k
      {
        l := FreeChunk(l, k);
        k := k + 1;
      }
      assert sys.pool.large[..k] == sys.pool.large;
      FreeBlocks();
    }

    /** The second loop of cw_destroy_pool. */
    method FreeBlocks()
      requires ChainOk() && BlocksMatch() && Distinct(sys.pool.blocks)
      requires AllHeld(sys.pool.blocks, host.live)
      modifies host`live
      ensures host.live == old(host.live) - Bases(sys.pool.blocks)
    {
      var p := head;
      assert sys.pool.blocks[0] == Block(p.base, p.last, p.end, p.failed);
      var n := ReadNext(p);
      ghost var i := 0;
      while true
        invariant i < |chain| && p == chain[i] && n == if i + 1 < |chain| then chain[i + 1] else null
        invariant host.live == old(host.live) - Bases(sys.pool.blocks[..i])
        decreases |chain| - i
      {
        assert sys.pool.blocks[i] == Block(p.base, p.last, p.end, p.failed);
        NotYetFreed(sys.pool.blocks, i, i);
        OneMoreBase(sys.pool.blocks[..i], sys.pool.blocks[i]);
        assert sys.pool.blocks[..i] + [sys.pool.blocks[i]] == sys.pool.blocks[..i + 1];
        host.Free(p.base);
        if n == null {
          break;
        }
        p := n;
        i := i + 1;
        NotYetFreed(sys.pool.blocks, i, i);
        assert sys.pool.blocks[i] == Block(n.base, n.last, n.end, n.failed);
        assert sys.pool.blocks[i].base in host.live && host.live[n.base] >= BLOCK_HEADER;
        n := ReadNext(n);
      }
      assert sys.pool.blocks[..i + 1] == sys.pool.blocks;
    }
  }

  /** The n bytes from a on lie in memory the host has granted and not got back. */
  ghost predicate Held(host: map<int, nat>, a: int, n: nat) {
    exists b :: b in host && b <= a && a + n <= b + host[b]
  }

  ghost predicate AllHeld(blocks: seq<Block>, host: map<int, nat>) {
    forall i :: 0 <= i < |blocks| ==> blocks[i].base in host && host[blocks[i].base] >= BLOCK_HEADER
  }

  /** One step of the walk, and its end. */
  lemma MovedOn(blocks: seq<Block>, k: nat, current: nat)
    requires current <= k < |blocks|
    ensures MovedCurrent(blocks, k, current)
         == if k == |blocks| - 1 then current
            else MovedCurrent(blocks, k + 1, if blocks[k].failed > 4 then k + 1 else current)
  {
  }

  /** A large record lies in a block, and no chunk that is freed takes its memory away. */
  lemma RecordStillHeld(s: Sys, k: nat, freed: set<int>)
    requires Inv(s) && k < |s.pool.large| && freed <= Chunks(s.pool.large)
    ensures Held(s.host - freed, s.pool.large[k].record, LARGE_RECORD)
  {
    var a := s.pool.large[k].record;
    assert RecordHeld(s.live, a);
    var h :| 0 <= h < |s.live| && s.live[h].addr == a && s.live[h].size == LARGE_RECORD && s.live[h].record
             && s.live[h].home.InBlock?;
    assert Housed(s, s.live[h]);
    var b := HousedInHost(s, s.live[h]);
    assert b !in freed && b in s.host - freed;
  }

  ghost predicate Distinct(blocks: seq<Block>) {
    forall i, j :: 0 <= i < j < |blocks| ==> blocks[i].base != blocks[j].base
  }

  lemma NotYetFreed(blocks: seq<Block>, i: nat, k: nat)
    requires Distinct(blocks) && i <= k < |blocks|
    ensures blocks[k].base !in Bases(blocks[..i])
  {
  }

  lemma SomeChunks(large: seq<Large>, k: nat)
    requires k <= |large|
    ensures Chunks(large[..k]) <= Chunks(large)
  {
    forall i | 0 <= i < k && large[..k][i].alloc != 0 ensures large[..k][i].alloc in Chunks(large) {
      assert large[i] == large[..k][i];
    }
  }

  lemma OneMoreLarge(large: seq<Large>, k: nat)
    requires k < |large|
    ensures Chunks(large[..k + 1]) == Chunks(large[..k]) + if large[k].alloc != 0 then {large[k].alloc} else {}
  {
    var u, v := large[..k], large[..k + 1];
    assert v[k] == large[k];
    forall i | 0 <= i < k ensures v[i] == u[i] {}
  }

  /** The chunk of record k has not been freed by the records before it. */
  lemma StillHeld(s: Sys, k: nat)
    requires Inv(s) && k < |s.pool.large| && s.pool.large[k].alloc != 0
    ensures s.pool.large[k].alloc in s.host - Chunks(s.pool.large[..k])
  {
  }

  lemma OwnedOnce(s: Sys)
    requires Inv(s)
    ensures Distinct(s.pool.blocks) && AllHeld(s.pool.blocks, s.host - Chunks(s.pool.large))
    ensures s.host - Chunks(s.pool.large) - Bases(s.pool.blocks) == Foreign(s)
  {
  }

  lemma WindowKept(s: Sys, h: nat, size: nat)
    requires h < |s.live| && Window(s.pool)
    ensures Window(Resize(s, h, size).pool)
  {
  }

  /** cw_create_pool. */
  method CreatePool(host: Host, size: nat, align: nat) returns (pool: Pool?)
    requires POOL_HEADER <= size && IsAlignment(align) && AlignedTo(size, align) && HostOk(host.live)
    modifies host`live, host`refused
    ensures host.refused == old(host.refused) + if pool == null then 1 else 0
    ensures if pool == null then host.live == old(host.live)
            else
              && fresh(pool) && fresh(pool.chain) && pool.Valid() && pool.host == host && pool.list == []
              && pool.sys == Created(old(host.live), size, align, pool.head.base) && Foreign(pool.sys) == old(host.live)
              && FreshRange(old(host.live), pool.head.base, size) && host.live == old(host.live)[pool.head.base := size]
  {
    ghost var before := host.live;
    var addr := host.Alloc(size);
    if addr == 0 {
      return null;
    }
    pool := new Pool(host, size, align, addr, before);
    CreatedOk(before, size, align, addr);
  }

  lemma GrantNotNull(host: map<int, nat>, a: int, n: nat)
    requires FreshRange(host, a, n)
    ensures a != 0 && a !in host
  {
  }

  lemma RoomNotNull(s: Sys, i: nat, aligned: bool)
    requires Inv(s) && i < |s.pool.blocks|
    ensures Candidate(s.pool.blocks[i], s.pool.align, aligned) > 0
  {
    CandidateInBlock(s, i, aligned);
    InBlockNotNull(s, i);
  }

  lemma EndsBelow(s: Sys)
    requires Inv(s)
    ensures s.pool.blocks[0].last <= s.pool.blocks[0].end
  {
    HeadKnown(s);
  }

  /** A request the host is not asked for anything is served legally. */
  lemma NoGrants(s: Sys, size: nat)
    requires Inv(s)
    ensures Chained(s.pool) && LegalGrants(s, size, Grants(0, 0))
  {
  }

  lemma SizeKnown(s: Sys)
    requires Inv(s)
    ensures Chained(s.pool) && BlockSize(s.pool) >= POOL_HEADER
  {
  }
}
