/**
  Room over whole runs: whatever has been asked of a pool, small requests use what the blocks of the
  window have left.
 */
module RoomRuns {
  import opened PoolModel
  import opened PoolSafety
  import opened PoolTail
  import opened PoolRoom
  import opened PoolWindow
  import opened ArrayModel
  import opened PoolRuns

  // ---------------------------------------------------------------- every operation keeps the blocks tight

  lemma GrowKeepsTight(s: Sys, a: Arr, n: nat, nalloc': nat, g: Grants)
    requires Inv(s) && AllTight(s) && ArrOk(s, a) && LegalGrants(s, Room(a.size, nalloc'), g)
    ensures AllTight(Grow(s, a, n, nalloc', g).sys)
  {
    hide Room, Palloc, Tight, HostOk, Owning, LiveOk, RecordsHeld, BlockOk, LegalGrants, Resize;
    if GrowsInPlace(s, a, Room(a.size, n)) {
      RoomPositive(a.size, a.nalloc);
      TailIsInHead(s, a.range);
      ResizeKeepsTight(s, a.range, s.live[a.range].size + Room(a.size, n));
    } else {
      PallocKeepsTight(s, Room(a.size, nalloc'), true, g);
    }
  }

  lemma PushKeepsTight(s: Sys, a: Arr, g: Grants)
    requires Inv(s) && AllTight(s) && ArrOk(s, a) && LegalGrants(s, Room(a.size, 2 * a.nalloc), g)
    ensures AllTight(Push(s, a, g).sys)
  {
    hide Grow, Room, Tight, LegalGrants;
    GrowKeepsTight(s, a, 1, 2 * a.nalloc, g);
  }

  lemma PushNKeepsTight(s: Sys, a: Arr, n: nat, g: Grants)
    requires Inv(s) && AllTight(s) && ArrOk(s, a) && LegalGrants(s, Room(a.size, Doubled(a, n)), g)
    ensures AllTight(PushN(s, a, n, g).sys)
  {
    hide Grow, Room, Tight, LegalGrants;
    GrowKeepsTight(s, a, n, Doubled(a, n), g);
  }

  lemma CreateKeepsTight(s: Sys, n: nat, size: nat, g0: Grants, g: Grants)
    requires Inv(s) && AllTight(s) && LegalGrants(s, ARRAY_HEADER, g0)
    requires LegalGrants(Palloc(s, ARRAY_HEADER, true, g0).0, Room(size, n), g)
    ensures AllTight(CreateArray(s, n, size, g0, g).0)
  {
    hide Room, Palloc, Tight, HostOk, Owning, LiveOk, RecordsHeld, BlockOk, LegalGrants;
    var t := Palloc(s, ARRAY_HEADER, true, g0).0;
    PallocSafe(s, ARRAY_HEADER, true, g0);
    PallocKeepsTight(s, ARRAY_HEADER, true, g0);
    PallocKeepsTight(t, Room(size, n), true, g);
  }

  lemma DestroyKeepsTight(s: Sys, a: Arr)
    requires Inv(s) && AllTight(s) && ArrOk(s, a)
    ensures AllTight(DestroyArray(s, a))
  {
    hide Room, Tight, HostOk, Owning, LiveOk, RecordsHeld, BlockOk, Release;
    RoomPositive(a.size, a.nalloc);
    ReleaseSafe(s, a.range);
    ReleaseLive(s, a.range);
    ReleaseKeepsTight(s, a.range);
    ReleaseKeepsTight(Release(s, a.range), a.header);
  }

  lemma StepKeepsTight(w: World, op: Op)
    requires WInv(w) && Legal(w, op) && AllTight(w.sys)
    ensures AllTight(Do(w, op).sys)
  {
    hide Palloc, Room, Tight, HostOk, Owning, LiveOk, RecordsHeld, BlockOk, Window, CreateArray, DestroyArray;
    hide Push, PushN, LegalGrants, Flat, FreshRange;
    match op
    case Alloc(size, aligned, _, g) => PallocKeepsTight(w.sys, size, aligned, g);
    case Create(n, size, g0, g) => CreateKeepsTight(w.sys, n, size, g0, g);
    case PushOne(k, _, g) => PushKeepsTight(w.sys, w.slots[k].arr, g);
    case PushMany(k, n, _, g) => PushNKeepsTight(w.sys, w.slots[k].arr, n, g);
    case Fill(_, _) =>
    case Destroy(k) => DestroyKeepsTight(w.sys, w.slots[k].arr);
    case OthersTake(_, _) => SameBlocksTight(w.sys, Do(w, op).sys);
    case OthersFree(_) => SameBlocksTight(w.sys, Do(w, op).sys);
  }

  lemma {:induction false} RunKeepsTight(w: World, ops: seq<Op>)
    requires WInv(w) && LegalRun(w, ops) && AllTight(w.sys)
    ensures AllTight(Run(w, ops).sys) && WInv(Run(w, ops))
    decreases |ops|
  {
    hide WInv, Do, Legal, AllTight;
    if ops != [] {
      StepKeepsTight(w, ops[0]);
      DoKeepsWInv(w, ops[0]);
      RunKeepsTight(Do(w, ops[0]), ops[1..]);
    }
  }

  lemma NewbornIsTight(host: map<int, nat>, size: nat, align: nat, grant: int)
    requires Creatable(host, size, align, grant)
    ensures AllTight(Newborn(host, size, align, grant).sys)
  {
  }

  /**
    After any run on a pool: a small request, aligned or not, that fits behind the last range of a
    block in the window is served without the host. In a block behind the first this holds while
    no range of the block has been given back, because d.last is moved back in the first block only.
   */
  lemma RoomIsKept(
      host: map<int, nat>, size: nat, align: nat, grant: int, ops: seq<Op>, i: nat, e: int, k: nat, aligned: bool)
    requires Creatable(host, size, align, grant) && LegalRun(Newborn(host, size, align, grant), ops)
    ensures var s := Run(Newborn(host, size, align, grant), ops).sys;
            && s.pool.blocks != [] && s.pool.current == Start(|s.pool.blocks|) && Chained(s.pool)
            && (Start(|s.pool.blocks|) <= i < |s.pool.blocks| && k <= s.pool.max && FreeFrom(s, i, e)
                && StartBehind(e, s.pool.align, aligned) + k <= s.pool.blocks[i].end ==>
                  var (t, m) := Palloc(s, k, aligned, Grants(0, 0)); m != 0 && t.host == s.host)
  {
    hide Run, LegalRun, Newborn, AllTight, FreeFrom, Palloc, StartBehind, HostOk, Owning, LiveOk, RecordsHeld, SlotsOk;
    var w0 := Newborn(host, size, align, grant);
    NewbornIsTight(host, size, align, grant);
    RunKeepsTight(w0, ops);
    var s := Run(w0, ops).sys;
    if Start(|s.pool.blocks|) <= i < |s.pool.blocks| && k <= s.pool.max && FreeFrom(s, i, e)
       && StartBehind(e, s.pool.align, aligned) + k <= s.pool.blocks[i].end {
      RoomIsUsed(s, i, e, k, aligned);
    }
  }
}
