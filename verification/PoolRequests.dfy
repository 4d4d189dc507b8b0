/**
  Requests to a pool in turn, and what is written into the memory they get at once: how far they come
  with any answers of the host, and that what was written first is still there at the end.
 */
module PoolRequests {
  import opened Bytes
  import opened Memory
  import opened PoolModel
  import opened PoolSafety
  import opened ArgModel
  import PoolImpl
  import Strings

  /** cw_palloc or cw_pnalloc; cw_pcalloc; cw_pnalloc and a copy of a string with its NUL. */
  datatype Request = Plain(n: nat, straight: bool) | Zeroed(n: nat) | Text(word: Bytes)
  {
    function Size(): nat {
      match this
      case Plain(n, _) => n
      case Zeroed(n) => n
      case Text(word) => |word| + 1
    }

    predicate Aligned() {
      match this
      case Plain(_, straight) => straight
      case Zeroed(_) => true
      case Text(_) => false
    }

    /** What is written as soon as the memory is there. */
    function Writes(): (bs: Bytes)
      ensures |bs| <= Size()
    {
      match this
      case Plain(_, _) => []
      case Zeroed(n) => seq(n, i => 0)
      case Text(word) => CString(word)
    }
  }

  /** The bytes before the first NUL, and a NUL. */
  function CString(word: Bytes): Bytes {
    word[..Strings.StrLen(word)] + [NUL]
  }

  // ---------------------------------------------------------------- requests in turn

  /** Requests one after the other, up to the first that gets NULL: the pool after them, and what the others got. */
  function ServeAll(s: Sys, rs: seq<Request>, gs: seq<Grants>): (r: (Sys, seq<int>))
    requires Chained(s.pool)
    ensures Chained(r.0.pool) && |r.1| <= |rs| && |r.1| <= |gs|
    decreases |rs|
  {
    if rs == [] || gs == [] then (s, [])
    else
      var (t, m) := Palloc(s, rs[0].Size(), rs[0].Aligned(), gs[0]);
      if m == 0 then (t, [])
      else
        var (u, at) := ServeAll(t, rs[1..], gs[1..]);
        (u, [m] + at)
  }

  predicate LegalAll(s: Sys, rs: seq<Request>, gs: seq<Grants>)
    requires Chained(s.pool)
    decreases |rs|
  {
    rs != [] && gs != [] ==>
      && LegalGrants(s, rs[0].Size(), gs[0])
      && var (t, m) := Palloc(s, rs[0].Size(), rs[0].Aligned(), gs[0]);
         m != 0 ==> LegalAll(t, rs[1..], gs[1..])
  }

  /** The memory after the writes of the requests that got these addresses. */
  function WrittenAll(mem: Mem, rs: seq<Request>, at: seq<int>): Mem
    decreases |rs|
  {
    if rs == [] || at == [] then mem else WrittenAll(Store(mem, at[0], rs[0].Writes()), rs[1..], at[1..])
  }

  /** The answers so far, the pool and the memory they have led to, and what the requests have got. */
  ghost predicate Progress(s: Sys, mem: Mem, rs: seq<Request>, gs: seq<Grants>, t: Sys, mem': Mem, at: seq<int>) {
    && Chained(s.pool) && LegalAll(s, rs, gs) && ServeAll(s, rs, gs) == (t, at)
    && mem' == WrittenAll(mem, rs, at)
  }

  lemma NoAnswers(s: Sys, mem: Mem, rs: seq<Request>)
    requires Chained(s.pool)
    ensures Progress(s, mem, rs, [], s, mem, [])
  {
  }

  lemma {:induction false} WrittenOne(mem: Mem, rs: seq<Request>, at: seq<int>, m: int)
    requires |at| < |rs|
    ensures WrittenAll(mem, rs, at + [m]) == Store(WrittenAll(mem, rs, at), m, rs[|at|].Writes())
    decreases |at|
  {
    hide Request.Writes, Store;
    if at == [] {
      assert [] + [m] == [m] && [m][1..] == [];
    } else {
      assert (at + [m])[0] == at[0] && (at + [m])[1..] == at[1..] + [m];
      WrittenOne(Store(mem, at[0], rs[0].Writes()), rs[1..], at[1..], m);
    }
  }

  /** One more answer. */
  lemma {:induction false} OneMoreAnswer(s: Sys, rs: seq<Request>, gs: seq<Grants>, t: Sys, at: seq<int>, g: Grants)
    requires Chained(s.pool) && LegalAll(s, rs, gs) && ServeAll(s, rs, gs) == (t, at) && |at| == |gs|
    requires |gs| < |rs| && Chained(t.pool) && LegalGrants(t, rs[|gs|].Size(), g)
    ensures var rq := rs[|gs|];
            var (u, m) := Palloc(t, rq.Size(), rq.Aligned(), g);
            LegalAll(s, rs, gs + [g]) && ServeAll(s, rs, gs + [g]) == (u, if m == 0 then at else at + [m])
    decreases |gs|
  {
    hide Palloc, LegalGrants, Request.Size, Request.Aligned;
    if gs == [] {
      assert [] + [g] == [g] && [g][1..] == [];
      assert s == t && at == [];
      var (s1, m1) := Palloc(s, rs[0].Size(), rs[0].Aligned(), g);
      NoAnswers(s1, map[], rs[1..]);
      assert [m1] + [] == [] + [m1];
    } else {
      assert (gs + [g])[0] == gs[0] && (gs + [g])[1..] == gs[1..] + [g];
      var (s1, m1) := Palloc(s, rs[0].Size(), rs[0].Aligned(), gs[0]);
      assert at == [m1] + ServeAll(s1, rs[1..], gs[1..]).1;
      OneMoreAnswer(s1, rs[1..], gs[1..], t, at[1..], g);
      var rq := rs[|gs|];
      var m := Palloc(t, rq.Size(), rq.Aligned(), g).1;
      assert [m1] + (at[1..] + [m]) == at + [m];
    }
  }

  /** And what is written into the memory it gives. */
  lemma ProgressOne(s: Sys, mem: Mem, rs: seq<Request>, gs: seq<Grants>, t: Sys, mem1: Mem, at: seq<int>, g: Grants)
    requires Progress(s, mem, rs, gs, t, mem1, at) && |at| == |gs| < |rs|
    requires Chained(t.pool) && LegalGrants(t, rs[|gs|].Size(), g)
    ensures var rq := rs[|gs|];
            var (u, m) := Palloc(t, rq.Size(), rq.Aligned(), g);
            if m == 0 then Progress(s, mem, rs, gs + [g], u, mem1, at)
            else Progress(s, mem, rs, gs + [g], u, Store(mem1, m, rq.Writes()), at + [m])
  {
    hide Palloc, LegalGrants, Request.Size, Request.Aligned, Request.Writes, Store, LegalAll, ServeAll;
    OneMoreAnswer(s, rs, gs, t, at, g);
    var rq := rs[|gs|];
    WrittenOne(mem, rs, at, Palloc(t, rq.Size(), rq.Aligned(), g).1);
  }

  // ---------------------------------------------------------------- what was written stays

  /** Range h of a valid pool is not written to by later requests. */
  lemma {:induction false} RangeStays(s: Sys, mem: Mem, rs: seq<Request>, gs: seq<Grants>, h: nat)
    requires Inv(s) && Chained(s.pool) && LegalAll(s, rs, gs) && h < |s.live|
    ensures var (t, at) := ServeAll(s, rs, gs);
            && Inv(t) && h < |t.live| && t.live[h] == s.live[h]
            && var r := s.live[h]; Load(WrittenAll(mem, rs, at), r.addr, r.size) == Load(mem, r.addr, r.size)
    decreases |rs|
  {
    hide Palloc, LegalGrants, Request.Size, Request.Aligned, Request.Writes, Store, Load;
    hide HostOk, Owning, LiveOk, RecordsHeld, Geometry, FreshRange;
    if rs != [] && gs != [] {
      PallocSafe(s, rs[0].Size(), rs[0].Aligned(), gs[0]);
      var (t, m) := Palloc(s, rs[0].Size(), rs[0].Aligned(), gs[0]);
      if m != 0 {
        var r := s.live[h];
        BytesStay(t, mem, h, |t.live| - 1, rs[0].Writes(), r.addr, r.size);
        RangeStays(t, Store(mem, m, rs[0].Writes()), rs[1..], gs[1..], h);
      }
    }
  }

  /** Memory of a request that was served still reads what was written there at first: zeros, or the string. */
  lemma {:induction false} ServedReads(s: Sys, mem: Mem, rs: seq<Request>, gs: seq<Grants>, k: nat)
    requires Inv(s) && Chained(s.pool) && LegalAll(s, rs, gs) && k < |ServeAll(s, rs, gs).1|
    ensures var at := ServeAll(s, rs, gs).1;
            Load(WrittenAll(mem, rs, at), at[k], |rs[k].Writes()|) == rs[k].Writes()
    decreases |rs|
  {
    hide Palloc, LegalGrants, Request.Size, Request.Aligned, Request.Writes, Store, Load;
    hide HostOk, Owning, LiveOk, RecordsHeld, Geometry, FreshRange;
    var (t, m) := Palloc(s, rs[0].Size(), rs[0].Aligned(), gs[0]);
    PallocSafe(s, rs[0].Size(), rs[0].Aligned(), gs[0]);
    var bs := rs[0].Writes();
    var mem1 := Store(mem, m, bs);
    if k == 0 {
      RangeStays(t, mem1, rs[1..], gs[1..], |t.live| - 1);
      LoadStored(mem, m, bs);
      var end := WrittenAll(mem1, rs[1..], ServeAll(t, rs[1..], gs[1..]).1);
      LoadPart(end, m, rs[0].Size(), 0, |bs|);
      LoadPart(mem1, m, rs[0].Size(), 0, |bs|);
    } else {
      ServedReads(t, mem1, rs[1..], gs[1..], k - 1);
    }
  }

  lemma WholeUnits(p: int, a: nat)
    requires IsAlignment(a)
    ensures p % 16 == 0 || AlignedTo(p, a) ==> p % 8 == 0
  {
  }

  lemma OneIsAligned(s: Sys, size: nat, g: Grants)
    requires Inv(s) && Chained(s.pool) && LegalGrants(s, size, g)
    ensures var m := Palloc(s, size, true, g).1; m != 0 ==> m % 8 == 0
  {
    hide PallocSmall, HostOk, Owning, LiveOk, RecordsHeld, AlignedTo, BlockOk;
    PallocSafe(s, size, true, g);
    var m := Palloc(s, size, true, g).1;
    WholeUnits(m, s.pool.align);
    assert m != 0 && size > s.pool.max ==> m == g.chunk;
  }

  /** Memory got by cw_palloc or cw_pcalloc, small or large, begins at a multiple of 8. */
  lemma {:induction false} ServedAligned(s: Sys, rs: seq<Request>, gs: seq<Grants>, k: nat)
    requires Inv(s) && Chained(s.pool) && LegalAll(s, rs, gs) && k < |ServeAll(s, rs, gs).1| && rs[k].Aligned()
    ensures ServeAll(s, rs, gs).1[k] % 8 == 0
    decreases |rs|
  {
    hide Palloc, LegalGrants, Request.Size, Request.Aligned, HostOk, Owning, LiveOk, RecordsHeld, Geometry;
    PallocSafe(s, rs[0].Size(), rs[0].Aligned(), gs[0]);
    if k == 0 {
      OneIsAligned(s, rs[0].Size(), gs[0]);
    } else {
      ServedAligned(Palloc(s, rs[0].Size(), rs[0].Aligned(), gs[0]).0, rs[1..], gs[1..], k - 1);
    }
  }

  // ---------------------------------------------------------------- one request to the linked pool

  /** A request, and the write that goes with it. */
  method Serve(pool: PoolImpl.Pool, rq: Request) returns (p: int, ghost g: Grants)
    requires pool.Valid()
    modifies pool, pool.host, pool.chain, pool.list
    ensures pool.Valid() && pool.Grows()
    ensures LegalGrants(old(pool.sys), rq.Size(), g)
    ensures (pool.sys, p) == Palloc(old(pool.sys), rq.Size(), rq.Aligned(), g)
    ensures pool.host.mem == if p == 0 then old(pool.host.mem) else Store(old(pool.host.mem), p, rq.Writes())
    ensures pool.host.refused >= old(pool.host.refused) && (p == 0 <==> pool.host.refused > old(pool.host.refused))
  {
    hide Inv, LegalGrants, Palloc, Store, PoolImpl.Pool.Shape;
    match rq
    case Zeroed(n) =>
      p, g := pool.Pcalloc(n);
    case Plain(n, straight) =>
      p, g := pool.Palloc(n, straight);
      NothingStored(pool.host.mem, p);
    case Text(word) =>
      p, g := pool.Palloc(|word| + 1, false);
      if p != 0 {
        pool.host.Write(p, CString(word));
      }
  }

  lemma NothingStored(mem: Mem, a: int)
    ensures Store(mem, a, []) == mem
  {
  }
}
