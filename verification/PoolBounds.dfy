/**
  Why a pool's size has to be a multiple of the alignment: runs of requests on a pool just
  created, of any size the header fits in.
 */
module PoolBounds {
  import opened PoolModel
  import opened PoolSafety
  import opened PoolConserve

  /** A call of cw_palloc or cw_pnalloc, and the host's answers. */
  datatype Ask = Ask(size: nat, aligned: bool, g: Grants)

  function Serve(s: Sys, asks: seq<Ask>): (t: Sys)
    requires Chained(s.pool)
    ensures Chained(t.pool)
    decreases |asks|
  {
    if asks == [] then s else Serve(Palloc(s, asks[0].size, asks[0].aligned, asks[0].g).0, asks[1..])
  }

  predicate LegalAsks(s: Sys, asks: seq<Ask>)
    requires Chained(s.pool)
    decreases |asks|
  {
    asks != [] ==>
      && LegalGrants(s, asks[0].size, asks[0].g)
      && LegalAsks(Palloc(s, asks[0].size, asks[0].aligned, asks[0].g).0, asks[1..])
  }

  /** Every range handed out from a block lies in the block. A request answered by NULL hands out nothing. */
  predicate AllInside(s: Sys) {
    forall h :: 0 <= h < |s.live| ==> WithinBlock(s, s.live[h])
  }

  predicate WithinBlock(s: Sys, r: Live) {
    r.home.InBlock? && r.addr != 0 ==>
      && r.home.i < |s.pool.blocks|
      && s.pool.blocks[r.home.i].base <= r.addr && r.addr + r.size <= s.pool.blocks[r.home.i].end
  }

  ghost predicate AlwaysInside(s: Sys)
    requires Chained(s.pool)
  {
    forall asks :: LegalAsks(s, asks) ==> AllInside(Serve(s, asks))
  }

  /** What cw_create_pool is given, but for the multiple of the alignment. */
  ghost predicate Obtained(host: map<int, nat>, size: nat, align: nat, grant: int) {
    HostOk(host) && IsAlignment(align) && POOL_HEADER <= size && FreshRange(host, grant, size)
  }

  lemma InvChained(s: Sys)
    requires Inv(s)
    ensures Chained(s.pool)
  {
  }

  lemma {:induction false} ServeSafe(s: Sys, asks: seq<Ask>)
    requires Inv(s) && LegalAsks(s, asks)
    ensures Inv(Serve(s, asks))
    decreases |asks|
  {
    hide Palloc, Geometry, HostOk, Owning, LiveOk, RecordsHeld;
    InvChained(s);
    if asks != [] {
      PallocSafe(s, asks[0].size, asks[0].aligned, asks[0].g);
      ServeSafe(Palloc(s, asks[0].size, asks[0].aligned, asks[0].g).0, asks[1..]);
    }
  }

  // ---------------------------------------------------------------- filling the only block byte by byte

  /** n calls of cw_pnalloc(pool, 1). */
  function Ones(n: nat): seq<Ask> {
    if n == 0 then [] else [Ask(1, false, Grants(0, 0))] + Ones(n - 1)
  }

  /** The pool is its first block, filled up to k bytes before the end. */
  predicate OneBlock(s: Sys, base: int, end: int, k: nat) {
    && |s.pool.blocks| == 1 && s.pool.current == 0 && 1 <= s.pool.max
    && s.pool.blocks[0].end == end && s.pool.blocks[0].last == end - k
    && s.pool.blocks[0].base == base <= end
  }

  lemma ByteTaken(s: Sys, base: int, end: int, k: nat)
    requires OneBlock(s, base, end, k) && 0 < k < TOP
    ensures var t := Palloc(s, 1, false, Grants(0, 0)).0;
            OneBlock(t, base, end, k - 1) && t.pool.align == s.pool.align && LegalGrants(s, 1, Grants(0, 0))
  {
    assert Sub64(end, end - k) == k;
    assert HasRoom(s.pool.blocks[0], s.pool.align, false, 1);
  }

  lemma {:induction false} OnesFill(s: Sys, base: int, end: int, k: nat)
    requires OneBlock(s, base, end, k) && k < TOP
    ensures LegalAsks(s, Ones(k)) && OneBlock(Serve(s, Ones(k)), base, end, 0)
    ensures Serve(s, Ones(k)).pool.align == s.pool.align
    decreases k
  {
    hide Palloc;
    if k == 0 {
      assert Ones(0) == [];
    } else {
      assert Ones(k)[0] == Ask(1, false, Grants(0, 0)) && Ones(k)[1..] == Ones(k - 1);
      ByteTaken(s, base, end, k);
      OnesFill(Palloc(s, 1, false, Grants(0, 0)).0, base, end, k - 1);
    }
  }

  /**
    One more byte, aligned, when the block is full and its end is not aligned, and then one more,
    not aligned: the fit test wraps both times. At the very top of the address space the first
    answer is NULL and the second is address 1; elsewhere both lie behind the end.
   */
  lemma NextBytesWrap(s: Sys, base: int, end: int)
    requires OneBlock(s, base, end, 0) && IsAlignment(s.pool.align) && !AlignedTo(end, s.pool.align)
    requires 16 <= base <= end < TOP
    ensures LegalGrants(s, 1, Grants(0, 0))
    ensures var t := Palloc(s, 1, true, Grants(0, 0)).0;
            && LegalGrants(t, 1, Grants(0, 0))
            && var (u, m) := Palloc(t, 1, false, Grants(0, 0));
               && u.live != [] && u.live[|u.live| - 1] == Live(m, 1, InBlock(0), false)
               && |u.pool.blocks| == 1 && u.pool.blocks[0].base == base && u.pool.blocks[0].end == end
               && (m == 1 || m > end)
  {
    hide AlignUp, AlignedTo;
    AlignUpFacts(end, s.pool.align);
    var up := AlignUp(end, s.pool.align);
    var m := up % TOP;
    TopIsAligned(up, s.pool.align);
    assert m == if up < TOP then up else 0;
    assert Sub64(end, m) >= 1 && Sub64(end, m + 1) >= 1 by {
      WrapsAround(end, m);
      WrapsAround(end, m + 1);
    }
    assert HasRoom(s.pool.blocks[0], s.pool.align, true, 1);
  }

  lemma TopIsAligned(up: int, a: nat)
    requires IsAlignment(a) && AlignedTo(up, a) && 0 <= up < TOP + a
    ensures up <= TOP
  {
  }

  /** An end behind or before the candidate is far from it. */
  lemma WrapsAround(end: int, m: int)
    requires 0 < end < TOP && 0 <= m <= TOP && m != end && m < end + TOP
    ensures Sub64(end, m) >= 1
  {
    if m < end {
      assert Sub64(end, m) == end - m;
    } else {
      assert Sub64(end, m) == end - m + TOP;
    }
  }

  /** The run: fill the block with cw_pnalloc(1), then ask for one aligned byte, then for one more. */
  function Filling(size: nat): seq<Ask>
    requires size >= POOL_HEADER
  {
    Ones(size - POOL_HEADER) + [Ask(1, true, Grants(0, 0))] + [Ask(1, false, Grants(0, 0))]
  }

  lemma {:induction false} ServeAppend(s: Sys, asks: seq<Ask>, last: Ask)
    requires Chained(s.pool)
    ensures Serve(s, asks + [last]) == Palloc(Serve(s, asks), last.size, last.aligned, last.g).0
    ensures LegalAsks(s, asks + [last]) <==> LegalAsks(s, asks) && LegalGrants(Serve(s, asks), last.size, last.g)
    decreases |asks|
  {
    hide Palloc, LegalGrants;
    if asks == [] {
      assert [] + [last] == [last] && [last][1..] == [];
    } else {
      assert (asks + [last])[0] == asks[0] && (asks + [last])[1..] == asks[1..] + [last];
      ServeAppend(Palloc(s, asks[0].size, asks[0].aligned, asks[0].g).0, asks[1..], last);
    }
  }

  /**
    In every pool whose size is no multiple of the alignment, that run ends with an address outside
    the only block, without any failure of the host.
   */
  lemma UnalignedPoolOverruns(host: map<int, nat>, size: nat, align: nat, grant: int)
    requires Obtained(host, size, align, grant) && !AlignedTo(size, align)
    ensures var s := Created(host, size, align, grant);
            && LegalAsks(s, Filling(size))
            && var t := Serve(s, Filling(size));
               && t.live != [] && |t.pool.blocks| == 1
               && t.pool.blocks[0].base == grant && t.pool.blocks[0].end == grant + size
               && var r := t.live[|t.live| - 1];
                  && r.home == InBlock(0) && r.size == 1 && r.addr > 0
                  && (r.addr == 1 < grant || r.addr > grant + size)
  {
    hide Palloc, AlignedTo, Serve, LegalAsks, Ones, LegalGrants;
    var s, n := Created(host, size, align, grant), size - POOL_HEADER;
    UnalignedSize(size, align, grant);
    assert OneBlock(s, grant, grant + size, n);
    OnesFill(s, grant, grant + size, n);
    var t := Serve(s, Ones(n));
    NextBytesWrap(t, grant, grant + size);
    ServeAppend(s, Ones(n), Ask(1, true, Grants(0, 0)));
    ServeAppend(s, Ones(n) + [Ask(1, true, Grants(0, 0))], Ask(1, false, Grants(0, 0)));
  }

  lemma UnalignedSize(size: nat, align: nat, grant: int)
    requires IsAlignment(align) && grant % 16 == 0 && size >= POOL_HEADER && !AlignedTo(size, align)
    ensures size > POOL_HEADER && !AlignedTo(grant + size, align)
  {
    hide AlignedTo;
    assert AlignedTo(POOL_HEADER, align) by { HeaderUnits(align); }
    AlignedRest(grant, size, align);
  }

  lemma AlignedRest(grant: int, size: nat, align: nat)
    requires grant % 16 == 0
    ensures AlignedTo(grant + size, align) ==> AlignedTo(size, align)
  {
    hide AlignedTo;
    Opposite(grant);
    if AlignedTo(grant + size, align) {
      AlignedSum(-grant, grant + size, align);
    }
  }

  lemma HeaderUnits(align: nat)
    ensures AlignedTo(POOL_HEADER, align)
  {
  }

  lemma Opposite(x: int)
    requires x % 16 == 0
    ensures -x % 16 == 0
  {
  }

  /**
    A pool just created only ever hands out addresses in its blocks, whatever is asked of it and
    whatever the host answers, exactly when its size is a multiple of the alignment.
   */
  lemma AlignedSizeExactly(host: map<int, nat>, size: nat, align: nat, grant: int)
    requires Obtained(host, size, align, grant)
    ensures AlwaysInside(Created(host, size, align, grant)) <==> AlignedTo(size, align)
  {
    hide Inv, Serve, LegalAsks, AlignedTo, FreshRange, HostOk;
    var s := Created(host, size, align, grant);
    if AlignedTo(size, align) {
      CreatedOk(host, size, align, grant);
      forall asks | LegalAsks(s, asks) ensures AllInside(Serve(s, asks)) {
        ServeSafe(s, asks);
        InvInside(Serve(s, asks));
      }
    } else {
      UnalignedPoolOverruns(host, size, align, grant);
      var t := Serve(s, Filling(size));
      assert !WithinBlock(t, t.live[|t.live| - 1]);
    }
  }

  lemma InvInside(s: Sys)
    requires Inv(s)
    ensures AllInside(s)
  {
    hide Geometry, HostOk, Owning, RecordsHeld;
    forall h | 0 <= h < |s.live| ensures WithinBlock(s, s.live[h]) {
      assert Housed(s, s.live[h]);
    }
  }
}
