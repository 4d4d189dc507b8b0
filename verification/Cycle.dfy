/**
  The part of cw_init_cycle that reads the configuration: the pool and what is taken from it, the
  argument list in it, the temporary pool, the -g parameter and the configuration file.
 */
module Cycle {
  import opened Bytes
  import opened ConfScan
  import opened ConfGrammar
  import opened ConfDispatch
  import opened ConfReader
  import opened ConfArgs
  import opened ConfDriver
  import opened Files
  import opened PoolModel
  import opened PoolConserve
  import opened PoolWindow
  import opened PoolImpl
  import ArrayModel
  import opened CycleModel
  import opened ArgModel
  import opened Memory
  import opened PoolRequests
  import opened ArrayImpl
  import PoolRuns

  // ---------------------------------------------------------------- the pool and what is taken from it

  ghost function Nodes(pool: PoolImpl.Pool): set<object>
    reads pool
  {
    (set b | b in pool.chain) + (set l | l in pool.list)
  }

  /** What has been asked of the pool so far has led to what it and its memory are now. */
  ghost predicate Now(pool: PoolImpl.Pool, s: Sys, mem: Mem, rs: seq<Request>, gs: seq<Grants>, at: seq<int>)
    reads pool, pool.host
  {
    Progress(s, mem, rs, gs, pool.sys, pool.host.mem, at)
  }

  /** One request of cw_init_cycle, the next of rs; gs are the host's answers to those before it. */
  method Take(pool: PoolImpl.Pool, rq: Request, ghost s: Sys, ghost mem: Mem, ghost rs: seq<Request>,
              ghost gs: seq<Grants>, ghost at: seq<int>)
    returns (ok: bool, ghost gs': seq<Grants>, ghost at': seq<int>)
    requires pool.Valid() && Now(pool, s, mem, rs, gs, at) && |at| == |gs| < |rs| && rs[|gs|] == rq
    modifies pool, pool.host, pool.chain, pool.list
    ensures pool.Valid() && fresh(Nodes(pool) - old(Nodes(pool))) && Foreign(pool.sys) == old(Foreign(pool.sys))
    ensures |gs'| == |gs| + 1 && Now(pool, s, mem, rs, gs', at') && |at'| == if ok then |gs'| else |gs|
    ensures pool.host.refused >= old(pool.host.refused) && (!ok <==> pool.host.refused > old(pool.host.refused))
  {
    hide Inv, Window, Foreign, LegalGrants, PoolModel.Palloc, Progress, PoolImpl.Pool.Shape;
    hide Request.Size, Request.Aligned, Request.Writes, Store;
    ghost var t, mem1 := pool.sys, pool.host.mem;
    SizeKnown(t);
    var p;
    ghost var g;
    p, g := Serve(pool, rq);
    PallocConserves(t, rq.Size(), rq.Aligned(), g);
    ProgressOne(s, mem, rs, gs, t, mem1, at, g);
    ok, gs', at' := p != 0, gs + [g], if p != 0 then at + [p] else at;
  }

  /** The cycle, its contexts and the file name. */
  method SetUpFirst(pool: PoolImpl.Pool, sizes: Sizes, name: Bytes)
    returns (ok: bool, stage: Stage, ghost gs: seq<Grants>, ghost at: seq<int>)
    requires pool.Valid()
    modifies pool, pool.host, pool.chain, pool.list
    ensures pool.Valid() && fresh(Nodes(pool) - old(Nodes(pool))) && Foreign(pool.sys) == old(Foreign(pool.sys))
    ensures pool.host.refused >= old(pool.host.refused) && (!ok <==> pool.host.refused > old(pool.host.refused))
    ensures 1 <= |gs| <= 3 && (ok ==> |gs| == 3) && stage == StageOf(|gs| - 1)
    ensures |at| == if ok then |gs| else |gs| - 1
    ensures Now(pool, old(pool.sys), old(pool.host.mem), Requests(sizes, name), gs, at)
  {
    hide Foreign, Now, PoolImpl.Pool.Valid;
    ghost var s, mem, rs := pool.sys, pool.host.mem, Requests(sizes, name);
    Begin(pool, rs);
    ok, gs, at := Take(pool, Zeroed(sizes.cycle), s, mem, rs, [], []);
    stage := CycleStage;
    if ok {
      ok, gs, at := Take(pool, Zeroed(sizes.ctx), s, mem, rs, gs, at);
      stage := ContextStage;
    }
    if ok {
      ok, gs, at := Take(pool, Text(name), s, mem, rs, gs, at);
      stage := NameStage;
    }
  }

  /** The module list and the core configuration with its `env`. */
  method SetUpSecond(pool: PoolImpl.Pool, sizes: Sizes, ghost name: Bytes, ghost s: Sys, ghost mem: Mem,
                     ghost gs0: seq<Grants>, ghost at0: seq<int>)
    returns (ok: bool, stage: Stage, ghost gs: seq<Grants>, ghost at: seq<int>)
    requires pool.Valid() && |at0| == |gs0| == 3 && Now(pool, s, mem, Requests(sizes, name), gs0, at0)
    modifies pool, pool.host, pool.chain, pool.list
    ensures pool.Valid() && fresh(Nodes(pool) - old(Nodes(pool))) && Foreign(pool.sys) == old(Foreign(pool.sys))
    ensures pool.host.refused >= old(pool.host.refused) && (!ok <==> pool.host.refused > old(pool.host.refused))
    ensures 4 <= |gs| <= 6 && (ok ==> |gs| == 6) && stage == StageOf(|gs| - 1)
    ensures |at| == if ok then |gs| else |gs| - 1
    ensures Now(pool, s, mem, Requests(sizes, name), gs, at)
  {
    hide Foreign, Now, PoolImpl.Pool.Valid;
    ghost var rs := Requests(sizes, name);
    ok, gs, at := Take(pool, Zeroed(sizes.modules), s, mem, rs, gs0, at0);
    stage := ModulesStage;
    if ok {
      ok, gs, at := Take(pool, Zeroed(sizes.core), s, mem, rs, gs, at);
      stage := CoreStage;
    }
    if ok {
      ok, gs, at := Take(pool, Plain(STR_SIZE, true), s, mem, rs, gs, at);
    }
  }

  lemma Begin(pool: PoolImpl.Pool, rs: seq<Request>)
    requires pool.Valid()
    ensures Now(pool, pool.sys, pool.host.mem, rs, [], [])
  {
    hide Window, Foreign, PoolImpl.Pool.Shape;
    SizeKnown(pool.sys);
    NoAnswers(pool.sys, pool.host.mem, rs);
  }

  /**
    Everything cw_init_cycle takes from the pool before the argument list: the model's run with these
    answers. If all of it is served, the records read zero and the name is there.
   */
  method SetUp(pool: PoolImpl.Pool, sizes: Sizes, name: Bytes)
    returns (stage: Stage, ghost gs: seq<Grants>, ghost at: seq<int>)
    requires pool.Valid()
    modifies pool, pool.host, pool.chain, pool.list
    ensures pool.Valid() && fresh(Nodes(pool) - old(Nodes(pool))) && Foreign(pool.sys) == old(Foreign(pool.sys))
    ensures pool.host.refused >= old(pool.host.refused) && (|at| < 6 <==> pool.host.refused > old(pool.host.refused))
    ensures Now(pool, old(pool.sys), old(pool.host.mem), Requests(sizes, name), gs, at)
    ensures |at| <= 6 && stage == StageOf(|at|) && (|at| < 6 ==> |gs| == |at| + 1)
    ensures |at| == 6 ==> SetUpDone(pool.host.mem, sizes, name, at)
  {
    hide Foreign, Now, PoolImpl.Pool.Valid, SetUpDone;
    ghost var s, mem := pool.sys, pool.host.mem;
    ValidIsSafe(pool);
    var ok;
    ok, stage, gs, at := SetUpFirst(pool, sizes, name);
    if ok {
      ok, stage, gs, at := SetUpSecond(pool, sizes, name, s, mem, gs, at);
    }
    if ok {
      stage := ArgsStage;
      AllIsWritten(pool, s, mem, sizes, name, gs, at);
    }
  }

  lemma ValidIsSafe(pool: PoolImpl.Pool)
    requires pool.Valid()
    ensures Inv(pool.sys)
  {
  }

  lemma AllIsWritten(pool: PoolImpl.Pool, s: Sys, mem: Mem, sizes: Sizes, name: Bytes, gs: seq<Grants>, at: seq<int>)
    requires Inv(s) && Now(pool, s, mem, Requests(sizes, name), gs, at) && |at| == 6
    ensures SetUpDone(pool.host.mem, sizes, name, at)
  {
    hide Inv, ServeAll, LegalAll, WrittenAll;
    SetUpReads(s, mem, sizes, name, gs);
  }

  /** cw_array_create for the words of one directive. */
  method CreateList(pool: PoolImpl.Pool) returns (list: ArgList?, ghost g0: Grants, ghost g: Grants)
    requires pool.Valid()
    modifies pool, pool.host`live, pool.host`refused, pool.chain, pool.list
    ensures pool.host.refused >= old(pool.host.refused)
    ensures list == null <==> pool.host.refused > old(pool.host.refused)
    ensures pool.Valid() && Foreign(pool.sys) == old(Foreign(pool.sys)) && Chained(old(pool.sys).pool)
    ensures LegalGrants(old(pool.sys), ArrayModel.ARRAY_HEADER, g0)
    ensures var s1 := PoolModel.Palloc(old(pool.sys), ArrayModel.ARRAY_HEADER, true, g0).0;
            LegalGrants(s1, ArrayModel.Room(STR_SIZE, FIRST_WORDS), g)
    ensures var (t, r) := ArrayModel.CreateArray(old(pool.sys), FIRST_WORDS, STR_SIZE, g0, g);
            pool.sys == t && (list == null <==> r.None?)
    ensures list != null ==>
              && list.Valid() && list.args.pool == pool && list.others == Foreign(pool.sys)
              && fresh(list) && fresh(list.Repr - {pool, pool.host} - old(Nodes(pool)))
  {
    hide Inv, Window, Foreign, LegalGrants, ArrayModel.Room, ArrayModel.CreateArray, PoolImpl.Pool.Shape;
    ghost var s := pool.sys;
    SizeKnown(s);
    var args;
    args, g0, g := CreateArray(pool, FIRST_WORDS, STR_SIZE);
    PoolRuns.CreateArrayOk(s, FIRST_WORDS, STR_SIZE, g0, g);
    list := null;
    if args != null {
      list := new ArgList(args);
    }
  }

  /** In a pool just created: what cw_init_cycle takes from it, and the argument list. */
  method FillPool(pool: PoolImpl.Pool, ghost host0: map<int, nat>, ghost align: nat, sizes: Sizes, name: Bytes)
    returns (list: ArgList?, stage: Stage, ghost lost: PoolImpl.Pool?, ghost a: Answers)
    requires pool.Valid() && pool.list == [] && FreshRange(host0, pool.head.base, CYCLE_POOL_SIZE)
    requires pool.sys == Created(host0, CYCLE_POOL_SIZE, align, pool.head.base) && Foreign(pool.sys) == host0
    modifies pool, pool.host, pool.chain
    ensures pool.host.refused >= old(pool.host.refused)
    ensures list == null <==> pool.host.refused > old(pool.host.refused)
    ensures a.pool != 0 && Possible(host0, align, sizes, name, a) && a.temp == a.buffer == 0
    ensures stage == Reached(host0, align, sizes, name, a)
    ensures (list == null <==> stage != TempStage) && lost == if stage == ModulesStage then pool else null
    ensures if lost != null then
              pool.Valid() && Foreign(pool.sys) == host0 && pool.sys == SetUpRun(host0, align, sizes, name, a).0
            else if list == null then pool.host.live == host0
            else
              && list.Valid() && list.args.pool == pool && list.others == host0
              && pool.sys == Listed(host0, align, sizes, name, a).0
              && fresh(list) && fresh(list.Repr - {pool, pool.host} - old(Nodes(pool)))
  {
    hide Inv, Window, Foreign, FreshRange, LegalGrants, LegalAll, ServeAll, Created, ArrayModel.CreateArray;
    hide ArgList.Valid, PoolImpl.Pool.Valid, PoolModel.Palloc, ArrayModel.Room;
    list, lost := null, null;
    GrantNotNull(host0, pool.head.base, CYCLE_POOL_SIZE);
    a := Answers(pool.head.base, [], Grants(0, 0), Grants(0, 0), 0, 0);
    ghost var gs, at;
    stage, gs, at := SetUp(pool, sizes, name);
    a := a.(requests := gs);
    if stage == ModulesStage {
      return null, stage, pool, a;
    }
    if stage == ArgsStage {
      ghost var g0, g;
      list, g0, g := CreateList(pool);
      a := a.(header := g0, words := g);
      if list != null {
        return list, TempStage, null, a;
      }
    }
    pool.Destroy();
  }

  /**
    The pool, what cw_init_cycle takes from it, and the argument list. How far it gets is told by
    the host's answers; every failure gives the pool back but that of the request for cycle->modules.
   */
  method CreateArgs(host: Host, align: nat, sizes: Sizes, name: Bytes)
    returns (list: ArgList?, stage: Stage, ghost lost: PoolImpl.Pool?, ghost a: Answers)
    requires IsAlignment(align) && HostOk(host.live)
    modifies host
    ensures host.refused >= old(host.refused) && (list == null <==> host.refused > old(host.refused))
    ensures Possible(old(host.live), align, sizes, name, a) && a.temp == a.buffer == 0
    ensures stage == Reached(old(host.live), align, sizes, name, a)
    ensures (list == null <==> stage != TempStage) && (lost != null <==> stage == ModulesStage)
    ensures if lost != null then
              && lost.Valid() && lost.host == host && Foreign(lost.sys) == old(host.live)
              && lost.sys == SetUpRun(old(host.live), align, sizes, name, a).0
            else if list == null then host.live == old(host.live)
            else
              && list.Valid() && list.args.pool.host == host && list.others == old(host.live)
              && list.args.pool.sys == Listed(old(host.live), align, sizes, name, a).0
              && fresh(list) && fresh(list.Repr - {host})
  {
    hide Inv, Window, Foreign, FreshRange, Created, Possible, SetUpRun, Listed;
    hide ArgList.Valid, PoolImpl.Pool.Valid;
    list, lost, stage := null, null, PoolStage;
    a := Answers(0, [], Grants(0, 0), Grants(0, 0), 0, 0);
    var pool := CreatePool(host, CYCLE_POOL_SIZE, align);
    if pool == null {
      NoPool(host.live, align, sizes, name, a);
    } else {
      list, stage, lost, a := FillPool(pool, old(host.live), align, sizes, name);
    }
  }

  lemma NoPool(host: map<int, nat>, align: nat, sizes: Sizes, name: Bytes, a: Answers)
    requires a.pool == 0 && a.buffer == 0
    ensures Possible(host, align, sizes, name, a)
  {
  }

  // ---------------------------------------------------------------- the temporary pool

  /** A pool with one block and nothing else. */
  ghost predicate Single(temp: PoolImpl.Pool)
    reads temp, temp.chain, temp.list
  {
    && temp.Coherent() && temp.list == []
    && Owned(temp.sys.pool) == {temp.head.base}
    && temp.head.base in temp.sys.host && temp.sys.host[temp.head.base] == CYCLE_POOL_SIZE
  }

  /** It is no part of the list, and its block is among what the host holds besides the pool of the list. */
  ghost predicate Beside(temp: PoolImpl.Pool, list: ArgList)
    reads temp, list, list.args
  {
    && temp.host == list.args.pool.host && temp !in list.Repr && Nodes(temp) !! list.Repr
    && temp.head.base in list.others && list.others[temp.head.base] == CYCLE_POOL_SIZE
  }

  /** conf.temp_pool. */
  method CreateTemp(list: ArgList, align: nat) returns (temp: PoolImpl.Pool?)
    requires list.Valid() && IsAlignment(align)
    modifies list.Repr
    ensures list.Valid() && list.Repr == old(list.Repr)
    ensures var host := list.args.pool.host; host.refused == old(host.refused) + if temp == null then 1 else 0
    ensures if temp == null then list.others == old(list.others)
            else
              && fresh(temp) && fresh(Nodes(temp)) && Single(temp) && Beside(temp, list)
              && FreshRange(old(list.args.pool.sys.host), temp.head.base, CYCLE_POOL_SIZE)
              && temp.head.base !in old(list.others)
              && list.others == old(list.others)[temp.head.base := CYCLE_POOL_SIZE]
  {
    hide Inv, Window, Foreign, FreshRange, ArgList.Valid, ArgList.Coherent, PoolImpl.Pool.Shape;
    list.ValidIsCoherent();
    ghost var s := list.args.pool.sys;
    temp := CreatePool(list.args.pool.host, CYCLE_POOL_SIZE, align);
    if temp == null {
      list.StillValid();
    } else {
      list.NoticeGrant(temp.head.base, CYCLE_POOL_SIZE);
      OwnsOne(s.host, CYCLE_POOL_SIZE, align, temp.head.base);
    }
  }

  lemma OwnsOne(host: map<int, nat>, size: nat, align: nat, grant: int)
    requires size >= POOL_HEADER
    ensures var s := Created(host, size, align, grant);
            Owned(s.pool) == {grant} && grant in s.host && s.host[grant] == size
  {
    var s := Created(host, size, align, grant);
    assert Bases(s.pool.blocks) == {grant} by {
      assert Bases([]) == {};
      OneMoreBase([], s.pool.blocks[0]);
    }
  }

  /** cw_destroy_cycle_pools. */
  method DestroyPools(temp: PoolImpl.Pool, list: ArgList)
    requires list.Valid() && Single(temp) && Beside(temp, list)
    modifies temp`sys, list.Repr
    ensures list.args.pool.host.live == old(list.others) - {old(temp.head.base)}
    ensures list.args.pool.host.refused == old(list.args.pool.host.refused)
  {
    hide Inv, Window, ArgList.Valid, ArgList.Coherent, PoolImpl.Pool.Coherent;
    list.ValidIsCoherent();
    list.OthersAreHeld();
    temp.Notice();
    temp.Destroy();
    list.NoticeFree(temp.head.base);
    list.Destroy();
  }

  // ---------------------------------------------------------------- the configuration

  /** The -g parameter is accepted, on top of st. */
  ghost predicate ParamTaken<St>(dirs: Directives<St>, st: St, param: Bytes) {
    ParseFrom(dirs.AsHandlers(), Source(None, false), InParam, st, 0, param).Parsed?
  }

  /** What the -g parameter and then the file make of the configuration; None if one is rejected. */
  ghost function Configured<St>(dirs: Directives<St>, st: St, param: Bytes, text: Bytes): Option<St> {
    var p := ParseFrom(dirs.AsHandlers(), Source(None, false), InParam, st, 0, param);
    if p.Rejected? then None
    else
      var q := ParseFrom(dirs.AsHandlers(), Source(Some(CONF_BUFFER), true), InFile, p.st, 1, text);
      if q.Rejected? then None else Some(q.st)
  }

  /** cw_conf_param, and then cw_conf_parse on the file, with the configuration the parameter has left. */
  method ParseBoth<St>(conf: Conf<St>, os: Os, param: array<byte>, name: Bytes, hasPread: bool)
    returns (ok: bool, ghost fault: bool, ghost file: File?, ghost buffer: int)
    requires Tables(conf.dirs.mods) && conf.list.Valid()
    requires conf !in conf.list.Repr && os !in conf.list.Repr && param !in conf.list.Repr
    modifies conf, os, param, conf.list.Repr
    ensures os.fds == old(os.fds) && param[..] == old(param[..])
    ensures conf.list.Valid() && fresh(conf.list.Repr - old(conf.list.Repr))
    ensures conf.list.others == old(conf.list.others)
    ensures if fault then !ok
            else
              name in os.disk ==>
                Configured(conf.dirs, old(conf.st), old(param[..]), os.disk[name]) == if ok then Some(conf.st) else None
    ensures ok ==> name in os.disk && buffer != 0
    ensures !ParamTaken(conf.dirs, old(conf.st), old(param[..])) ==> file == null && os.failed == old(os.failed)
    ensures buffer == 0 || FreshRange(old(conf.list.others), buffer, CONF_BUFFER)
    ensures file != null ==> fresh(file) && file !in conf.list.Repr
    ensures os.failed + conf.Refused() + FailedCalls(file) >= old(os.failed + conf.Refused())
    ensures fault <==> os.failed + conf.Refused() + FailedCalls(file) > old(os.failed + conf.Refused())
  {
    hide ParseFrom, Directives.AsHandlers, ArgList.Valid, Tables;
    file, buffer := null, 0;
    ok, fault := conf.ParseParam(param);
    if ok {
      conf.list.OthersAreHeld();
      ghost var live := conf.list.args.pool.host.live;
      ok, fault, file, buffer := conf.ParseFile(os, name, hasPread);
      if buffer != 0 {
        FreshBeside(live, conf.list.others, buffer, CONF_BUFFER);
      }
    }
  }

  /** What is fresh in all that the host holds is fresh in a part of it. */
  lemma FreshBeside(host: map<int, nat>, part: map<int, nat>, a: int, n: nat)
    requires FreshRange(host, a, n) && forall b :: b in part ==> b in host && host[b] == part[b]
    ensures FreshRange(part, a, n)
  {
  }

  /** The two parses, with the temporary pool at hand, and both pools destroyed on a failure. */
  method ReadBeside<St>(
      list: ArgList, temp: PoolImpl.Pool, os: Os, dirs: Directives<St>, st: St, param: array<byte>, name: Bytes,
      hasPread: bool)
    returns (conf: Conf?<St>, ghost fault: bool, ghost file: File?, ghost buffer: int)
    requires list.Valid() && os !in list.Repr && param !in list.Repr && Tables(dirs.mods)
    requires Single(temp) && Beside(temp, list) && os !in Nodes(temp) && param !in Nodes(temp)
    modifies os, param, temp`sys, list.Repr
    ensures os.fds == old(os.fds) && param[..] == old(param[..])
    ensures if conf == null then list.args.pool.host.live == old(list.others) - {old(temp.head.base)}
            else conf.list == list && list.Valid() && list.others == old(list.others)
    ensures conf != null ==> buffer != 0
    ensures buffer == 0 || FreshRange(old(list.others), buffer, CONF_BUFFER)
    ensures if conf != null then name in os.disk && Configured(dirs, st, old(param[..]), os.disk[name]) == Some(conf.st)
            else !fault && name in os.disk ==> Configured(dirs, st, old(param[..]), os.disk[name]) == None
    ensures file != null ==> fresh(file)
    ensures !ParamTaken(dirs, st, old(param[..])) ==> file == null && os.failed == old(os.failed)
    ensures var host := list.args.pool.host;
            && os.failed + host.refused + FailedCalls(file) >= old(os.failed + host.refused)
            && (fault <==> os.failed + host.refused + FailedCalls(file) > old(os.failed + host.refused))
  {
    hide Configured, ParamTaken, ArgList.Valid, Tables, PoolImpl.Pool.Coherent, Foreign, FreshRange;
    conf := new Conf(list, dirs, st);
    var ok;
    ok, fault, file, buffer := ParseBoth(conf, os, param, name, hasPread);
    if !ok {
      DestroyPools(temp, list);
      conf := null;
    }
  }

  /** From the argument list on: the temporary pool, and what follows with it. */
  method ReadWith<St>(
      list: ArgList, os: Os, align: nat, dirs: Directives<St>, st: St, param: array<byte>, name: Bytes, hasPread: bool)
    returns (conf: Conf?<St>, stage: Stage, ghost fault: bool, ghost file: File?, ghost base: int, ghost buffer: int)
    requires list.Valid() && os !in list.Repr && param !in list.Repr && IsAlignment(align) && Tables(dirs.mods)
    modifies os, param, list.Repr
    ensures os.fds == old(os.fds) && param[..] == old(param[..])
    ensures base == 0 || FreshRange(old(list.args.pool.sys.host), base, CYCLE_POOL_SIZE)
    ensures stage == (if base == 0 then TempStage else Reading) && (stage == TempStage ==> conf == null && fault)
    ensures buffer == 0 || (base != 0 && FreshRange(old(list.others)[base := CYCLE_POOL_SIZE], buffer, CONF_BUFFER))
    ensures conf != null ==> buffer != 0
    ensures if conf == null then list.args.pool.host.live == old(list.others)
            else
              && conf.list == list && list.Valid()
              && base !in old(list.others) && list.others == old(list.others)[base := CYCLE_POOL_SIZE]
    ensures if conf != null then name in os.disk && Configured(dirs, st, old(param[..]), os.disk[name]) == Some(conf.st)
            else !fault && name in os.disk ==> Configured(dirs, st, old(param[..]), os.disk[name]) == None
    ensures file != null ==> fresh(file)
    ensures !ParamTaken(dirs, st, old(param[..])) ==> file == null && os.failed == old(os.failed)
    ensures var host := list.args.pool.host;
            && os.failed + host.refused + FailedCalls(file) >= old(os.failed + host.refused)
            && (fault <==> os.failed + host.refused + FailedCalls(file) > old(os.failed + host.refused))
  {
    hide Configured, ParamTaken, ArgList.Valid, Tables, PoolImpl.Pool.Valid, Foreign, Single, Beside, FreshRange;
    conf, fault, file, base, buffer, stage := null, true, null, 0, 0, TempStage;
    var temp := CreateTemp(list, align);
    if temp == null {
      list.Destroy();
      return;
    }
    stage := Reading;
    base := temp.head.base;
    GrantNotNull(old(list.args.pool.sys.host), base, CYCLE_POOL_SIZE);
    conf, fault, file, buffer := ReadBeside(list, temp, os, dirs, st, param, name, hasPread);
  }

  /**
    The configuration part of cw_init_cycle. It succeeds only with the configuration that the -g
    parameter and then the file make, and fails only if one of them is rejected, or the host or
    the system has failed; how far it gets is told by the host's answers. After a success the host
    holds the two pools more than before. After a failure it holds what it held before, unless the
    host grants the pool and the first three requests and has nothing for the fourth, the one for
    cycle->modules: then, and only then, the pool stays behind.
   */
  method ReadConfiguration<St>(
      host: Host, os: Os, align: nat, sizes: Sizes, dirs: Directives<St>, st: St,
      param: array<byte>, name: Bytes, hasPread: bool)
    returns (conf: Conf?<St>, stage: Stage, ghost fault: bool, ghost file: File?, ghost lost: PoolImpl.Pool?,
             ghost a: Answers)
    requires IsAlignment(align) && HostOk(host.live) && Tables(dirs.mods)
    modifies host, os, param
    ensures os.fds == old(os.fds) && param[..] == old(param[..])
    ensures Possible(old(host.live), align, sizes, name, a)
    ensures stage == Reached(old(host.live), align, sizes, name, a) && (stage != Reading ==> fault)
    ensures lost != null <==> Leaks(old(host.live), align, sizes, name, a)
    ensures conf != null ==> a.buffer != 0
    ensures if conf != null then
              && conf.list.Valid() && conf.list.args.pool.host == host && stage == Reading
              && a.temp !in old(host.live) && conf.list.others == old(host.live)[a.temp := CYCLE_POOL_SIZE]
            else if lost != null then
              && lost.Valid() && lost.host == host && Foreign(lost.sys) == old(host.live)
              && lost.sys == SetUpRun(old(host.live), align, sizes, name, a).0
            else host.live == old(host.live)
    ensures if conf != null then name in os.disk && Configured(dirs, st, old(param[..]), os.disk[name]) == Some(conf.st)
            else !fault && name in os.disk ==> Configured(dirs, st, old(param[..]), os.disk[name]) == None
    ensures file != null ==> fresh(file)
    ensures !ParamTaken(dirs, st, old(param[..])) ==> file == null && os.failed == old(os.failed)
    ensures fault <==> os.failed + host.refused + FailedCalls(file) > old(os.failed + host.refused)
  {
    hide Configured, ParamTaken, ArgList.Valid, Tables, HostOk, PoolImpl.Pool.Valid, Foreign, SetUpRun, Listed;
    hide FreshRange;
    hide LegalGrants, LegalAll, Leaks, PoolModel.Palloc, ArrayModel.Room;
    conf, fault, file := null, true, null;
    var list;
    list, stage, lost, a := CreateArgs(host, align, sizes, name);
    if list != null {
      ghost var base, buffer;
      conf, stage, fault, file, base, buffer := ReadWith(list, os, align, dirs, st, param, name, hasPread);
      a := a.(temp := base, buffer := buffer);
      AnswersForTemp(old(host.live), align, sizes, name, a);
    }
    LeaksExactly(old(host.live), align, sizes, name, a);
  }

  /** The last answer adds nothing to what the ones before it have led to. */
  lemma AnswersForTemp(host: map<int, nat>, align: nat, sizes: Sizes, name: Bytes, a: Answers)
    requires var b := a.(temp := 0, buffer := 0);
             Possible(host, align, sizes, name, b) && Reached(host, align, sizes, name, b) == TempStage
    requires var b := a.(temp := 0, buffer := 0);
             a.temp == 0 || FreshRange(Listed(host, align, sizes, name, b).0.host, a.temp, CYCLE_POOL_SIZE)
    requires a.buffer != 0 ==> a.temp != 0 && FreshRange(host[a.temp := CYCLE_POOL_SIZE], a.buffer, CONF_BUFFER)
    ensures Possible(host, align, sizes, name, a)
    ensures Reached(host, align, sizes, name, a) == if a.temp == 0 then TempStage else Reading
  {
    hide LegalGrants, LegalAll, ServeAll, PoolModel.Palloc, ArrayModel.Room, ArrayModel.CreateArray, FreshRange;
  }
}
