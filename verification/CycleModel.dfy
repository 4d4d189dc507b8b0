/**
  The memory cw_init_cycle asks for before it reads the configuration, as values: how far it gets
  with any answers of the host, and what it leaves behind.
 */
module CycleModel {
  import opened Bytes
  import opened PoolModel
  import opened PoolSafety
  import opened PoolConserve
  import opened ArrayModel
  import opened ArgModel
  import opened Memory
  import opened PoolRequests
  import Strings
  import ConfDriver

  const CYCLE_POOL_SIZE: nat := 16384
  const FIRST_WORDS: nat := 10

  /** sizeof(cw_cycle_t), the room for cycle->conf_ctx and cycle->modules, sizeof(cw_core_conf_t). */
  datatype Sizes = Sizes(cycle: nat, ctx: nat, modules: nat, core: nat)

  /** Where cw_init_cycle gives up for want of memory; Reading if it goes on to read the configuration. */
  datatype Stage =
    PoolStage | CycleStage | ContextStage | NameStage | ModulesStage | CoreStage | ArgsStage | TempStage | Reading

  // ---------------------------------------------------------------- what cw_init_cycle asks for

  /** cycle, cycle->conf_ctx, the file name, cycle->modules, the core configuration, its `env`. */
  function Requests(sizes: Sizes, name: Bytes): (rs: seq<Request>)
    ensures |rs| == 6
  {
    [Zeroed(sizes.cycle), Zeroed(sizes.ctx), Text(name), Zeroed(sizes.modules), Zeroed(sizes.core),
     Plain(STR_SIZE, true)]
  }

  /** Which request was refused, when so many were served. */
  function StageOf(served: nat): Stage {
    match served
    case 0 => CycleStage
    case 1 => ContextStage
    case 2 => NameStage
    case 3 => ModulesStage
    case 4 | 5 => CoreStage
    case _ => ArgsStage
  }

  /**
    The host's answers: for the pool, the requests that are made, the argument list, the temporary
    pool, and the buffer of the configuration file.
   */
  datatype Answers = Answers(
    pool: int, requests: seq<Grants>, header: Grants, words: Grants, temp: int, buffer: int)

  /** The pool just created, the requests made to it, and the addresses they got. */
  function SetUpRun(host: map<int, nat>, align: nat, sizes: Sizes, name: Bytes, a: Answers): (r: (Sys, seq<int>))
    ensures Chained(r.0.pool)
  {
    ServeAll(Created(host, CYCLE_POOL_SIZE, align, a.pool), Requests(sizes, name), a.requests)
  }

  /** The argument list behind them. */
  function Listed(host: map<int, nat>, align: nat, sizes: Sizes, name: Bytes, a: Answers): (Sys, Option<Arr>) {
    CreateArray(SetUpRun(host, align, sizes, name, a).0, FIRST_WORDS, STR_SIZE, a.header, a.words)
  }

  /** How far cw_init_cycle gets. */
  function Reached(host: map<int, nat>, align: nat, sizes: Sizes, name: Bytes, a: Answers): Stage {
    if a.pool == 0 then PoolStage
    else if |SetUpRun(host, align, sizes, name, a).1| < 6 then StageOf(|SetUpRun(host, align, sizes, name, a).1|)
    else if Listed(host, align, sizes, name, a).1.None? then ArgsStage
    else if a.temp == 0 then TempStage
    else Reading
  }

  /** Answers the host may give, to the requests that are made and no more. */
  ghost predicate Possible(host: map<int, nat>, align: nat, sizes: Sizes, name: Bytes, a: Answers) {
    && (a.pool == 0 || FreshRange(host, a.pool, CYCLE_POOL_SIZE))
    && (a.pool != 0 ==>
          && LegalAll(Created(host, CYCLE_POOL_SIZE, align, a.pool), Requests(sizes, name), a.requests)
          && var (s, at) := SetUpRun(host, align, sizes, name, a);
             && (|at| < 6 ==> |a.requests| == |at| + 1)
             && (|at| == 6 ==>
                   && LegalGrants(s, ARRAY_HEADER, a.header)
                   && LegalGrants(Palloc(s, ARRAY_HEADER, true, a.header).0, Room(STR_SIZE, FIRST_WORDS), a.words)
                   && var (t, list) := Listed(host, align, sizes, name, a);
                      (list.Some? ==> a.temp == 0 || FreshRange(t.host, a.temp, CYCLE_POOL_SIZE))))
    && (a.buffer != 0 ==>
          && Reached(host, align, sizes, name, a) == Reading
          && FreshRange(host[a.temp := CYCLE_POOL_SIZE], a.buffer, ConfDriver.CONF_BUFFER))
  }

  /** The pool is granted, three requests are served, and the fourth, for cycle->modules, gets NULL. */
  ghost predicate Leaks(host: map<int, nat>, align: nat, sizes: Sizes, name: Bytes, a: Answers) {
    && a.pool != 0 && |a.requests| == 4
    && var rs := Requests(sizes, name);
       var (s, at) := ServeAll(Created(host, CYCLE_POOL_SIZE, align, a.pool), rs[..3], a.requests[..3]);
       |at| == 3 && Palloc(s, sizes.modules, true, a.requests[3]).1 == 0
  }

  lemma {:induction false} ServeSome(s: Sys, rs: seq<Request>, gs: seq<Grants>, k: nat)
    requires Chained(s.pool) && k < |rs| && k < |gs|
    ensures var (t, at) := ServeAll(s, rs[..k], gs[..k]);
            |ServeAll(s, rs, gs).1| == k && |gs| == k + 1 <==>
            |at| == k && |gs| == k + 1 && Palloc(t, rs[k].Size(), rs[k].Aligned(), gs[k]).1 == 0
    decreases k
  {
    hide Palloc, Request.Size, Request.Aligned;
    var (t, m) := Palloc(s, rs[0].Size(), rs[0].Aligned(), gs[0]);
    if k == 0 {
      assert rs[..0] == [] && gs[..0] == [];
    } else {
      assert rs[..k][0] == rs[0] && gs[..k][0] == gs[0];
      assert rs[..k][1..] == rs[1..][..k - 1] && gs[..k][1..] == gs[1..][..k - 1];
      if m != 0 {
        ServeSome(t, rs[1..], gs[1..], k - 1);
      }
    }
  }

  /** cw_init_cycle stops at cycle->modules exactly when those are the host's answers. */
  lemma LeaksExactly(host: map<int, nat>, align: nat, sizes: Sizes, name: Bytes, a: Answers)
    requires Possible(host, align, sizes, name, a)
    ensures Reached(host, align, sizes, name, a) == ModulesStage <==> Leaks(host, align, sizes, name, a)
  {
    hide Palloc, LegalAll, ServeAll, CreateArray;
    if a.pool != 0 {
      var rs := Requests(sizes, name);
      assert rs[3].Size() == sizes.modules && rs[3].Aligned();
      if |a.requests| == 4 {
        ServeSome(Created(host, CYCLE_POOL_SIZE, align, a.pool), rs, a.requests, 3);
      }
    }
  }

  // ---------------------------------------------------------------- what the memory holds then

  ghost predicate AllZero(mem: Mem, a: int, n: nat) {
    forall x :: a <= x < a + n ==> At(mem, x) == 0
  }

  /**
    The cycle, its contexts, the module list and the core record read zero, the copy of the file name
    reads as that name, and all but the name is aligned.
   */
  ghost predicate SetUpDone(mem: Mem, sizes: Sizes, name: Bytes, at: seq<int>) {
    && |at| == 6
    && AllZero(mem, at[0], sizes.cycle) && AllZero(mem, at[1], sizes.ctx)
    && (NUL !in name ==> Load(mem, at[2], |name| + 1) == name + [NUL])
    && AllZero(mem, at[3], sizes.modules) && AllZero(mem, at[4], sizes.core)
    && forall k :: k in {0, 1, 3, 4, 5} ==> at[k] % 8 == 0
  }

  /** So it is when all six requests have been served, whatever the host's answers were. */
  lemma SetUpReads(s: Sys, mem: Mem, sizes: Sizes, name: Bytes, gs: seq<Grants>)
    requires Inv(s) && Chained(s.pool) && LegalAll(s, Requests(sizes, name), gs)
    requires |ServeAll(s, Requests(sizes, name), gs).1| == 6
    ensures var at := ServeAll(s, Requests(sizes, name), gs).1;
            SetUpDone(WrittenAll(mem, Requests(sizes, name), at), sizes, name, at)
  {
    hide Inv, ServeAll, LegalAll, WrittenAll;
    var rs := Requests(sizes, name);
    var at := ServeAll(s, rs, gs).1;
    var m := WrittenAll(mem, rs, at);
    forall k | 0 <= k < 6 ensures Load(m, at[k], |rs[k].Writes()|) == rs[k].Writes() {
      ServedReads(s, mem, rs, gs, k);
    }
    forall k | k in {0, 1, 3, 4, 5} ensures at[k] % 8 == 0 {
      ServedAligned(s, rs, gs, k);
    }
    ZerosRead(m, at[0], sizes.cycle);
    ZerosRead(m, at[1], sizes.ctx);
    ZerosRead(m, at[3], sizes.modules);
    ZerosRead(m, at[4], sizes.core);
    WholeString(name);
  }

  lemma ZerosRead(mem: Mem, a: int, n: nat)
    ensures Load(mem, a, n) == seq(n, i => 0) ==> AllZero(mem, a, n)
  {
    forall x | a <= x < a + n && Load(mem, a, n) == seq(n, i => 0) ensures At(mem, x) == 0 {
      assert Load(mem, a, n)[x - a] == At(mem, x);
    }
  }

  lemma WholeString(name: Bytes)
    ensures NUL !in name ==> CString(name) == name + [NUL]
  {
    assert Strings.StrLen(name) < |name| ==> name[Strings.StrLen(name)] in name;
  }

  // ---------------------------------------------------------------- it does happen

  /** A pool of one block with no more than so many bytes in use behind the header, and with n large records. */
  ghost predicate Roomy(s: Sys, base: int, align: nat, used: nat, n: nat) {
    && |s.pool.blocks| == 1 && s.pool.current == 0 && s.pool.align == align && s.pool.max == MAX_SMALL
    && |s.pool.large| == n && IsAlignment(align) && 0 < base && base + CYCLE_POOL_SIZE < TOP
    && var b := s.pool.blocks[0];
       && b.base == base && b.end == base + CYCLE_POOL_SIZE
       && base <= b.last <= base + POOL_HEADER + used
  }

  /** A small request that fits is served without the host. */
  lemma SmallIsServed(s: Sys, base: int, align: nat, used: nat, n: nat, size: nat, aligned: bool, record: bool)
    requires Roomy(s, base, align, used, n) && POOL_HEADER + used + 16 + size <= CYCLE_POOL_SIZE
    ensures var (t, m) := PallocSmall(s, size, aligned, record, 0);
            m != 0 && Roomy(t, base, align, used + 16 + size, n) && t.host == s.host && t.pool.large == s.pool.large
  {
    hide AlignUp;
    var b := s.pool.blocks[0];
    AlignUpFacts(b.last, align);
    var m := Candidate(b, align, aligned);
    assert b.last <= m < b.last + 16 by {
      assert AlignUp(b.last, align) < TOP;
    }
    assert Sub64(b.end, m) == b.end - m >= size;
    assert HasRoom(b, align, aligned, size);
    assert FirstFit(s.pool.blocks, 0, align, aligned, size) == 0;
  }

  /** A large one takes a chunk from the host and a record from the block. */
  lemma LargeIsServed(s: Sys, base: int, align: nat, used: nat, size: nat, chunk: int)
    requires Roomy(s, base, align, used, 0) && POOL_HEADER + used + 32 <= CYCLE_POOL_SIZE
    requires size > MAX_SMALL && FreshRange(s.host, chunk, size)
    ensures var (t, m) := Palloc(s, size, true, Grants(chunk, 0));
            m != 0 && Roomy(t, base, align, used + 32, 1)
    ensures LegalGrants(s, size, Grants(chunk, 0))
  {
    hide PallocSmall;
    SmallIsServed(s.(host := s.host[chunk := size]), base, align, used, 0, LARGE_RECORD, true, true);
  }

  /** s, s1, s2 and s3 are the pool before four requests; the fourth gets NULL. */
  lemma ThreeServed(s: Sys, s1: Sys, s2: Sys, s3: Sys, rs: seq<Request>, gs: seq<Grants>)
    requires |rs| >= 4 && |gs| == 4 && Chained(s.pool) && Chained(s1.pool) && Chained(s2.pool) && Chained(s3.pool)
    requires LegalGrants(s, rs[0].Size(), gs[0]) && LegalGrants(s1, rs[1].Size(), gs[1])
    requires LegalGrants(s2, rs[2].Size(), gs[2]) && LegalGrants(s3, rs[3].Size(), gs[3])
    requires var (t, m) := Palloc(s, rs[0].Size(), rs[0].Aligned(), gs[0]); t == s1 && m != 0
    requires var (t, m) := Palloc(s1, rs[1].Size(), rs[1].Aligned(), gs[1]); t == s2 && m != 0
    requires var (t, m) := Palloc(s2, rs[2].Size(), rs[2].Aligned(), gs[2]); t == s3 && m != 0
    requires var (t, m) := Palloc(s3, rs[3].Size(), rs[3].Aligned(), gs[3]); t == s3 && m == 0
    ensures LegalAll(s, rs, gs) && ServeAll(s, rs, gs).0 == s3 && |ServeAll(s, rs, gs).1| == 3
  {
    hide Palloc, ServeAll, LegalAll, LegalGrants, Request.Size, Request.Aligned;
    var m1 := Palloc(s, rs[0].Size(), rs[0].Aligned(), gs[0]).1;
    var m2 := Palloc(s1, rs[1].Size(), rs[1].Aligned(), gs[1]).1;
    var m3 := Palloc(s2, rs[2].Size(), rs[2].Aligned(), gs[2]).1;
    NoAnswers(s, map[], rs);
    OneMoreAnswer(s, rs, [], s, [], gs[0]);
    assert [] + [gs[0]] == gs[..1] && [] + [m1] == [m1];
    OneMoreAnswer(s, rs, gs[..1], s1, [m1], gs[1]);
    assert gs[..1] + [gs[1]] == gs[..2] && [m1] + [m2] == [m1, m2];
    OneMoreAnswer(s, rs, gs[..2], s2, [m1, m2], gs[2]);
    assert gs[..2] + [gs[2]] == gs[..3] && [m1, m2] + [m3] == [m1, m2, m3];
    OneMoreAnswer(s, rs, gs[..3], s3, [m1, m2, m3], gs[3]);
    assert gs[..3] + [gs[3]] == gs;
  }

  /**
    With the sizes of an LP64 build and any file name up to a thousand bytes: the host grants the
    pool and one chunk, and then has nothing for cycle->modules.
   */
  lemma LeakHappens(host: map<int, nat>, align: nat, core: nat, name: Bytes, pool: int, chunk: int)
    requires IsAlignment(align) && |name| <= 1000
    requires FreshRange(host, pool, CYCLE_POOL_SIZE) && FreshRange(host[pool := CYCLE_POOL_SIZE], chunk, 1032)
    ensures var sizes := Sizes(112, 1032, 1040, core);
            var none := Grants(0, 0);
            var a := Answers(pool, [none, Grants(chunk, 0), none, none], none, none, 0, 0);
            Possible(host, align, sizes, name, a) && Leaks(host, align, sizes, name, a)
  {
    hide PallocSmall, PallocLarge, ServeAll, LegalAll;
    var sizes, none := Sizes(112, 1032, 1040, core), Grants(0, 0);
    var rs, gs := Requests(sizes, name), [none, Grants(chunk, 0), none, none];
    var a := Answers(pool, gs, none, none, 0, 0);
    var s := Created(host, CYCLE_POOL_SIZE, align, pool);
    assert Roomy(s, pool, align, 0, 0);
    SmallIsServed(s, pool, align, 0, 0, 112, true, false);
    var s1 := Palloc(s, 112, true, none).0;
    LargeIsServed(s1, pool, align, 128, 1032, chunk);
    var s2 := Palloc(s1, 1032, true, gs[1]).0;
    SmallIsServed(s2, pool, align, 160, 1, |name| + 1, false, false);
    var s3 := Palloc(s2, |name| + 1, false, none).0;
    assert Palloc(s3, 1040, true, none) == (s3, 0) by { NoChunk(s3, 1040); }
    ThreeServed(s, s1, s2, s3, rs, gs);
    LeaksExactly(host, align, sizes, name, a);
  }

  lemma NoChunk(s: Sys, size: nat)
    requires Chained(s.pool) && size > s.pool.max
    ensures PallocLarge(s, size, Grants(0, 0)) == (s, 0)
  {
  }
}
