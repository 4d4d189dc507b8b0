/**
  Whole runs on one pool: allocations, any number of growable arrays, writes by the owners of
  ranges, array destruction, and what other clients of the host do, interleaved in any order, with
  any answers of the host.
 */
module PoolRuns {
  import opened Bytes
  import opened Memory
  import opened PoolModel
  import opened PoolSafety
  import opened PoolTail
  import opened PoolWindow
  import opened PoolConserve
  import opened ArrayModel

  /** An array of the run; it is dead once destroyed. */
  datatype Slot = Slot(arr: Arr, alive: bool)

  datatype World = World(sys: Sys, mem: Mem, slots: seq<Slot>)

  datatype Op =
    | Alloc(size: nat, aligned: bool, zero: bool, g: Grants)
    | Create(n: nat, size: nat, g0: Grants, g: Grants)
    | PushOne(k: nat, elem: Bytes, g: Grants)
    | PushMany(k: nat, n: nat, elems: Bytes, g: Grants)
    | Fill(h: nat, bytes: Bytes)
    | Destroy(k: nat)
    | OthersTake(a: int, n: nat)   // another client of the host is granted a range
    | OthersFree(a: int)           // and gives one back

  /** What an array ought to be: its first capacity, how many elements were copied, its contents. */
  datatype Log = Log(first: nat, copied: nat, bytes: Bytes)

  // ---------------------------------------------------------------- one operation

  /** What each caller has to respect, and the host's answers. */
  ghost predicate Legal(w: World, op: Op)
    requires WInv(w)
  {
    match op
    case Alloc(size, _, _, g) => LegalGrants(w.sys, size, g)
    case Create(n, size, g0, g) =>
      && 1 <= n && 1 <= size
      && LegalGrants(w.sys, ARRAY_HEADER, g0)
      && LegalGrants(Palloc(w.sys, ARRAY_HEADER, true, g0).0, Room(size, n), g)
    case PushOne(k, elem, g) =>
      && Alive(w, k) && |elem| == w.slots[k].arr.size
      && LegalGrants(w.sys, Room(w.slots[k].arr.size, 2 * w.slots[k].arr.nalloc), g)
    case PushMany(k, n, elems, g) =>
      && Alive(w, k) && |elems| == Room(w.slots[k].arr.size, n)
      && LegalGrants(w.sys, Room(w.slots[k].arr.size, Doubled(w.slots[k].arr, n)), g)
    case Fill(h, bytes) =>
      && h < |w.sys.live| && !w.sys.live[h].record && |bytes| <= w.sys.live[h].size
      && forall k: nat :: Alive(w, k) ==> h != w.slots[k].arr.range && h != w.slots[k].arr.header
    case Destroy(k) => Alive(w, k)
    case OthersTake(a, n) => FreshRange(w.sys.host, a, n)
    case OthersFree(a) => a in Foreign(w.sys)
  }

  predicate Alive(w: World, k: nat) {
    k < |w.slots| && w.slots[k].alive
  }

  /** A push followed by the caller's write of the new elements. */
  function AfterPush(w: World, k: nat, p: Pushed, bytes: Bytes): World
    requires k < |w.slots|
  {
    if p.elt == 0 then w.(sys := p.sys)
    else World(p.sys, Store(Copied(w.mem, w.slots[k].arr, p), p.elt, bytes), w.slots[k := Slot(p.arr, true)])
  }

  ghost function Do(w: World, op: Op): World
    requires WInv(w) && Legal(w, op)
  {
    match op
    case Alloc(size, aligned, zero, g) =>
      var (t, m) := Palloc(w.sys, size, aligned, g);
      w.(sys := t, mem := if zero && m != 0 then Store(w.mem, m, seq(size, i => 0)) else w.mem)
    case Create(n, size, g0, g) =>
      var (t, a) := CreateArray(w.sys, n, size, g0, g);
      w.(sys := t, slots := if a.Some? then w.slots + [Slot(a.value, true)] else w.slots)
    case PushOne(k, elem, g) => AfterPush(w, k, Push(w.sys, w.slots[k].arr, g), elem)
    case PushMany(k, n, elems, g) => AfterPush(w, k, PushN(w.sys, w.slots[k].arr, n, g), elems)
    case Fill(h, bytes) => w.(mem := Store(w.mem, w.sys.live[h].addr, bytes))
    case Destroy(k) =>
      w.(sys := DestroyArray(w.sys, w.slots[k].arr), slots := w.slots[k := w.slots[k].(alive := false)])
    case OthersTake(a, n) => w.(sys := w.sys.(host := w.sys.host[a := n]))
    case OthersFree(a) => w.(sys := w.sys.(host := w.sys.host - {a}))
  }

  function Appended(log: Log, a: Arr, p: Pushed, bytes: Bytes): Log {
    if p.elt == 0 then log
    else log.(bytes := log.bytes + bytes, copied := log.copied + if p.moved then a.nelts else 0)
  }

  /** The same operation on the logs: arrays are append-only byte sequences, nothing else exists. */
  ghost function Note(w: World, op: Op, logs: seq<Log>): seq<Log>
    requires WInv(w) && Legal(w, op) && |logs| == |w.slots|
  {
    match op
    case Create(n, size, g0, g) =>
      if CreateArray(w.sys, n, size, g0, g).1.Some? then logs + [Log(n, 0, [])] else logs
    case PushOne(k, elem, g) => logs[k := Appended(logs[k], w.slots[k].arr, Push(w.sys, w.slots[k].arr, g), elem)]
    case PushMany(k, n, elems, g) =>
      logs[k := Appended(logs[k], w.slots[k].arr, PushN(w.sys, w.slots[k].arr, n, g), elems)]
    case _ => logs
  }

  // ---------------------------------------------------------------- what every reachable world satisfies

  ghost predicate SlotsOk(s: Sys, slots: seq<Slot>) {
    && (forall k :: 0 <= k < |slots| && slots[k].alive ==> ArrOk(s, slots[k].arr))
    && (forall k, l :: 0 <= k < l < |slots| && slots[k].alive && slots[l].alive ==>
          Separate(slots[k].arr, slots[l].arr))
  }

  ghost predicate WInv(w: World) {
    Inv(w.sys) && Window(w.sys.pool) && SlotsOk(w.sys, w.slots)
  }

  /** Copying stays linear: each copied element is paid for by capacity gained since the array was made. */
  predicate Amortised(log: Log, a: Arr) {
    log.copied + log.first <= a.nalloc && (a.nalloc <= log.first || a.nalloc <= 2 * a.nelts)
  }

  ghost predicate Agrees(w: World, k: nat, log: Log)
    requires k < |w.slots|
  {
    w.slots[k].alive ==> Flat(w.mem, w.slots[k].arr) == log.bytes && Amortised(log, w.slots[k].arr)
  }

  ghost predicate AllAgree(w: World, logs: seq<Log>) {
    |logs| == |w.slots| && forall k :: 0 <= k < |logs| ==> Agrees(w, k, logs[k])
  }

  // ---------------------------------------------------------------- frames

  lemma SlotsStay(s: Sys, t: Sys, slots: seq<Slot>)
    requires SlotsOk(s, slots) && s.live <= t.live
    ensures SlotsOk(t, slots)
  {
    hide Room;
    forall k | 0 <= k < |slots| && slots[k].alive ensures ArrOk(t, slots[k].arr) {
      ArrKept(s, t, slots[k].arr);
    }
  }

  // ---------------------------------------------------------------- pushes

  /** A push leaves the old elements in place and puts the new ones right behind them. */
  lemma PushedFlat(s: Sys, mem: Mem, a: Arr, n: nat, p: Pushed, bytes: Bytes)
    requires Inv(s) && ArrOk(s, a) && GrowOk(s, a, n, p) && p.elt != 0 && |bytes| == Room(a.size, n)
    ensures Flat(Store(Copied(mem, a, p), p.elt, bytes), p.arr) == Flat(mem, a) + bytes
  {
    hide Store, Load, Inv, Room;
    var mem1 := Copied(mem, a, p);
    var old_ := Room(a.size, a.nelts);
    var mem2 := Store(mem1, p.elt, bytes);
    assert Load(mem1, p.arr.elts, old_) == Flat(mem, a) by {
      if p.moved { LoadStored(mem, p.arr.elts, Flat(mem, a)); }
    }
    LoadApart(mem1, p.elt, bytes, p.arr.elts, old_);
    LoadStored(mem1, p.elt, bytes);
    RoomAdds(a.size, a.nelts, n);
    LoadSplit(mem2, p.arr.elts, old_, Room(a.size, n));
  }

  lemma PushLeavesOthers(s: Sys, mem: Mem, a: Arr, n: nat, p: Pushed, bytes: Bytes, b: Arr)
    requires ArrOk(s, a) && ArrOk(s, b) && Separate(a, b) && GrowOk(s, a, n, p) && p.elt != 0
    requires |bytes| == Room(a.size, n)
    ensures ArrOk(p.sys, b) && Separate(p.arr, b)
    ensures Flat(Store(Copied(mem, a, p), p.elt, bytes), b) == Flat(mem, b)
  {
    hide Store, Load, Room, HostOk, Owning, LiveOk, RecordsHeld, Geometry;
    GrowthLeavesOthers(s, mem, a, n, p, b);
    PushStaysInside(s, a, n, p);
    WriteApart(p.sys, Copied(mem, a, p), p.arr.range, p.elt, bytes, b);
  }

  lemma PushKeeps(w: World, k: nat, n: nat, p: Pushed, bytes: Bytes, logs: seq<Log>)
    requires WInv(w) && AllAgree(w, logs) && Alive(w, k) && |bytes| == Room(w.slots[k].arr.size, n)
    requires GrowOk(w.sys, w.slots[k].arr, n, p) && Window(p.sys.pool)
    requires p.elt != 0 ==> Amortised(Appended(logs[k], w.slots[k].arr, p, bytes), p.arr)
    ensures WInv(AfterPush(w, k, p, bytes))
    ensures AllAgree(AfterPush(w, k, p, bytes), logs[k := Appended(logs[k], w.slots[k].arr, p, bytes)])
  {
    hide Flat, Copied, Store, Room, Window, HostOk, Owning, LiveOk, RecordsHeld, Geometry, Amortised, Extends;
    var a := w.slots[k].arr;
    var v := AfterPush(w, k, p, bytes);
    if p.elt != 0 {
      PushedFlat(w.sys, w.mem, a, n, p, bytes);
      forall l | 0 <= l < |w.slots| && l != k && w.slots[l].alive
        ensures ArrOk(p.sys, w.slots[l].arr) && Separate(p.arr, w.slots[l].arr)
        ensures Flat(v.mem, w.slots[l].arr) == Flat(w.mem, w.slots[l].arr)
      {
        SeparateBoth(w.slots, k, l);
        PushLeavesOthers(w.sys, w.mem, a, n, p, bytes, w.slots[l].arr);
      }
      var logs' := logs[k := Appended(logs[k], a, p, bytes)];
      forall l | 0 <= l < |logs'| ensures Agrees(v, l, logs'[l]) {
        assert Agrees(w, l, logs[l]);
      }
    }
  }

  lemma SeparateBoth(slots: seq<Slot>, k: nat, l: nat)
    requires k < |slots| && l < |slots| && k != l && slots[k].alive && slots[l].alive
    requires forall i, j :: 0 <= i < j < |slots| && slots[i].alive && slots[j].alive ==>
               Separate(slots[i].arr, slots[j].arr)
    ensures Separate(slots[k].arr, slots[l].arr)
  {
    if k < l { assert Separate(slots[k].arr, slots[l].arr); } else { assert Separate(slots[l].arr, slots[k].arr); }
  }

  // ---------------------------------------------------------------- amortised growth

  lemma GrowCapacity(s: Sys, a: Arr, n: nat, nalloc': nat, g: Grants)
    requires Chained(s.pool) && a.range < |s.live|
    ensures var p := Grow(s, a, n, nalloc', g);
            || (p.elt == 0 && p.arr == a && !p.moved)
            || (p.arr.nelts == a.nelts + n && p.arr.nalloc == a.nalloc + n && !p.moved)
            || (p.arr.nelts == a.nelts + n && p.arr.nalloc == nalloc' && p.moved)
  {
    hide Room, Palloc, Resize;
  }

  /** One step of the growth bound for cw_array_push, whatever the pool does. */
  lemma PushAmortised(s: Sys, a: Arr, g: Grants, log: Log, bytes: Bytes)
    requires Inv(s) && ArrOk(s, a) && Amortised(log, a) && LegalGrants(s, Room(a.size, 2 * a.nalloc), g)
    ensures var p := Push(s, a, g); p.elt != 0 ==> Amortised(Appended(log, a, p, bytes), p.arr)
  {
    hide Room, Grow, BlockOk, HostOk, Owning, LiveOk, RecordsHeld, LegalGrants;
    GrowCapacity(s, a, 1, 2 * a.nalloc, g);
  }

  /** The same for cw_array_push_n. */
  lemma PushNAmortised(s: Sys, a: Arr, n: nat, g: Grants, log: Log, bytes: Bytes)
    requires Inv(s) && ArrOk(s, a) && Amortised(log, a) && LegalGrants(s, Room(a.size, Doubled(a, n)), g)
    ensures var p := PushN(s, a, n, g); p.elt != 0 ==> Amortised(Appended(log, a, p, bytes), p.arr)
  {
    hide Room, Grow, BlockOk, HostOk, Owning, LiveOk, RecordsHeld, LegalGrants;
    GrowCapacity(s, a, n, Doubled(a, n), g);
  }

  // ---------------------------------------------------------------- the window and the host under a push

  lemma GrowKeepsWindow(s: Sys, a: Arr, n: nat, nalloc': nat, g: Grants)
    requires Chained(s.pool) && a.range < |s.live| && Window(s.pool)
    ensures Window(Grow(s, a, n, nalloc', g).sys.pool)
  {
    hide Room, Palloc;
    PallocKeepsWindow(s, Room(a.size, nalloc'), true, g);
  }

  lemma GrowConserves(s: Sys, a: Arr, n: nat, nalloc': nat, g: Grants)
    requires Chained(s.pool) && a.range < |s.live| && LegalGrants(s, Room(a.size, nalloc'), g)
    ensures Foreign(Grow(s, a, n, nalloc', g).sys) == Foreign(s)
  {
    hide Room, Palloc, LegalGrants;
    if GrowsInPlace(s, a, Room(a.size, n)) {
      ResizeConserves(s, a.range, s.live[a.range].size + Room(a.size, n));
    } else {
      PallocConserves(s, Room(a.size, nalloc'), true, g);
    }
  }

  lemma ResizeConserves(s: Sys, h: nat, size: nat)
    requires h < |s.live| && s.pool.blocks != []
    ensures Foreign(Resize(s, h, size)) == Foreign(s)
  {
    SameBases(s.pool.blocks, Resize(s, h, size).pool.blocks);
  }

  lemma ReleaseConserves(s: Sys, h: nat)
    requires h < |s.live| && Inv(s)
    ensures Foreign(Release(s, h)) == Foreign(s) && (Window(s.pool) ==> Window(Release(s, h).pool))
  {
    ResizeConserves(s, h, 0);
  }

  // ---------------------------------------------------------------- every operation

  /** The logs agree after one operation, and the host holds for others what it should. */
  ghost predicate StepOk(v: World, logs': seq<Log>, others': map<int, nat>) {
    WInv(v) && AllAgree(v, logs') && Foreign(v.sys) == others'
  }

  /** The other clients of the host, for whom the pool does not exist. */
  function Others(others: map<int, nat>, op: Op): map<int, nat> {
    match op
    case OthersTake(a, n) => others[a := n]
    case OthersFree(a) => others - {a}
    case _ => others
  }

  function AllOthers(others: map<int, nat>, ops: seq<Op>): map<int, nat>
    decreases |ops|
  {
    if ops == [] then others else AllOthers(Others(others, ops[0]), ops[1..])
  }

  lemma PushOneOk(w: World, k: nat, elem: Bytes, g: Grants, logs: seq<Log>)
    requires WInv(w) && AllAgree(w, logs) && Legal(w, PushOne(k, elem, g))
    ensures StepOk(Do(w, PushOne(k, elem, g)), Note(w, PushOne(k, elem, g), logs), Foreign(w.sys))
  {
    hide Grow, Room, HostOk, Owning, BlockOk, LiveOk, RecordsHeld, Foreign, Amortised, Flat, Appended, LegalGrants;
    var a := w.slots[k].arr;
    var p := Push(w.sys, a, g);
    assert Agrees(w, k, logs[k]);
    PushIsOk(w.sys, a, g);
    PushAmortised(w.sys, a, g, logs[k], elem);
    GrowKeepsWindow(w.sys, a, 1, 2 * a.nalloc, g);
    GrowConserves(w.sys, a, 1, 2 * a.nalloc, g);
    assert Room(a.size, 1) == a.size by { OneRoom(a.size); }
    PushKeeps(w, k, 1, p, elem, logs);
  }

  lemma OneRoom(size: nat)
    ensures Room(size, 1) == size
  {
  }

  lemma PushManyOk(w: World, k: nat, n: nat, elems: Bytes, g: Grants, logs: seq<Log>)
    requires WInv(w) && AllAgree(w, logs) && Legal(w, PushMany(k, n, elems, g))
    ensures StepOk(Do(w, PushMany(k, n, elems, g)), Note(w, PushMany(k, n, elems, g), logs), Foreign(w.sys))
  {
    hide Grow, Room, HostOk, Owning, BlockOk, LiveOk, RecordsHeld, Foreign, Amortised, Flat, Appended, LegalGrants;
    var a := w.slots[k].arr;
    var p := PushN(w.sys, a, n, g);
    assert Agrees(w, k, logs[k]);
    PushNIsOk(w.sys, a, n, g);
    PushNAmortised(w.sys, a, n, g, logs[k], elems);
    GrowKeepsWindow(w.sys, a, n, Doubled(a, n), g);
    GrowConserves(w.sys, a, n, Doubled(a, n), g);
    PushKeeps(w, k, n, p, elems, logs);
  }

  lemma AllocOk(w: World, size: nat, aligned: bool, zero: bool, g: Grants, logs: seq<Log>)
    requires WInv(w) && AllAgree(w, logs) && LegalGrants(w.sys, size, g)
    ensures StepOk(Do(w, Alloc(size, aligned, zero, g)), logs, Foreign(w.sys))
  {
    hide Palloc, Room, HostOk, Owning, BlockOk, LiveOk, RecordsHeld, Foreign, Amortised, Flat, Store, Window,
      LegalGrants;
    var (t, m) := Palloc(w.sys, size, aligned, g);
    PallocSafe(w.sys, size, aligned, g);
    PallocKeepsWindow(w.sys, size, aligned, g);
    PallocConserves(w.sys, size, aligned, g);
    SlotsStay(w.sys, t, w.slots);
    var v := Do(w, Alloc(size, aligned, zero, g));
    forall k | 0 <= k < |logs| ensures Agrees(v, k, logs[k]) {
      assert Agrees(w, k, logs[k]);
      if w.slots[k].alive && zero && m != 0 {
        assert ArrOk(w.sys, w.slots[k].arr) && ArrOk(t, w.slots[k].arr);
        WriteApart(t, w.mem, |t.live| - 1, m, seq(size, i => 0), w.slots[k].arr);
      }
    }
  }

  lemma FillOk(w: World, h: nat, bytes: Bytes, logs: seq<Log>)
    requires WInv(w) && AllAgree(w, logs) && Legal(w, Fill(h, bytes))
    ensures StepOk(Do(w, Fill(h, bytes)), logs, Foreign(w.sys))
  {
    hide Room, HostOk, Owning, BlockOk, LiveOk, RecordsHeld, Foreign, Amortised, Flat, Store, Window;
    var v := Do(w, Fill(h, bytes));
    forall k | 0 <= k < |logs| ensures Agrees(v, k, logs[k]) {
      assert Agrees(w, k, logs[k]);
      if w.slots[k].alive {
        assert Alive(w, k) && ArrOk(w.sys, w.slots[k].arr);
        WriteApart(w.sys, w.mem, h, w.sys.live[h].addr, bytes, w.slots[k].arr);
      }
    }
  }

  /** A new array, empty, in ranges that did not exist before. */
  ghost predicate NewArray(s: Sys, t: Sys, a: Arr, n: nat, size: nat) {
    ArrOk(t, a) && a.range >= |s.live| && a.header >= |s.live| && a.nelts == 0 && a.nalloc == n && a.size == size
  }

  lemma CreateArrayOk(s: Sys, n: nat, size: nat, g0: Grants, g: Grants)
    requires Inv(s) && Window(s.pool) && 1 <= n && 1 <= size && LegalGrants(s, ARRAY_HEADER, g0)
    requires LegalGrants(Palloc(s, ARRAY_HEADER, true, g0).0, Room(size, n), g)
    ensures var (t, a) := CreateArray(s, n, size, g0, g);
            && Inv(t) && Window(t.pool) && s.live <= t.live && Foreign(t) == Foreign(s)
            && (a.Some? ==> NewArray(s, t, a.value, n, size))
  {
    hide Palloc, Room, HostOk, Owning, BlockOk, LiveOk, RecordsHeld, Foreign, Window, LegalGrants;
    PallocSafe(s, ARRAY_HEADER, true, g0);
    PallocKeepsWindow(s, ARRAY_HEADER, true, g0);
    PallocConserves(s, ARRAY_HEADER, true, g0);
    var (t, header) := Palloc(s, ARRAY_HEADER, true, g0);
    PallocSafe(t, Room(size, n), true, g);
    PallocKeepsWindow(t, Room(size, n), true, g);
    PallocConserves(t, Room(size, n), true, g);
  }

  lemma CreateOk(w: World, n: nat, size: nat, g0: Grants, g: Grants, logs: seq<Log>)
    requires WInv(w) && AllAgree(w, logs) && Legal(w, Create(n, size, g0, g))
    ensures StepOk(Do(w, Create(n, size, g0, g)), Note(w, Create(n, size, g0, g), logs), Foreign(w.sys))
  {
    hide CreateArray, Palloc, Room, HostOk, Owning, BlockOk, LiveOk, RecordsHeld, Foreign, Window, LegalGrants, Load;
    CreateArrayOk(w.sys, n, size, g0, g);
    var (t, a) := CreateArray(w.sys, n, size, g0, g);
    SlotsStay(w.sys, t, w.slots);
    var v := Do(w, Create(n, size, g0, g));
    var logs' := Note(w, Create(n, size, g0, g), logs);
    assert SlotsOk(t, v.slots) by {
      forall k | 0 <= k < |w.slots| && w.slots[k].alive && a.Some? ensures Separate(w.slots[k].arr, a.value) {
        assert ArrOk(w.sys, w.slots[k].arr);
      }
    }
    forall k | 0 <= k < |logs'| ensures Agrees(v, k, logs'[k]) {
      if k < |logs| { assert Agrees(w, k, logs[k]); } else { NoRoom(a.value.size); }
    }
  }

  lemma NoRoom(size: nat)
    ensures Room(size, 0) == 0
  {
  }

  lemma OthersTakeOk(w: World, a: int, n: nat, logs: seq<Log>)
    requires WInv(w) && AllAgree(w, logs) && FreshRange(w.sys.host, a, n)
    ensures StepOk(Do(w, OthersTake(a, n)), logs, Foreign(w.sys)[a := n])
  {
    hide Flat, Amortised, Window, Room, BlockOk, LiveOk, RecordsHeld;
    GrantKeepsInv(w.sys, a, n);
    GrantIsForeign(w.sys, a, n);
    forall k | 0 <= k < |logs| ensures Agrees(Do(w, OthersTake(a, n)), k, logs[k]) { assert Agrees(w, k, logs[k]); }
  }

  lemma OthersFreeOk(w: World, a: int, logs: seq<Log>)
    requires WInv(w) && AllAgree(w, logs) && a in Foreign(w.sys)
    ensures StepOk(Do(w, OthersFree(a)), logs, Foreign(w.sys) - {a})
  {
    hide Flat, Amortised, Window, Room, BlockOk, LiveOk, RecordsHeld;
    FreeKeepsInv(w.sys, a);
    forall k | 0 <= k < |logs| ensures Agrees(Do(w, OthersFree(a)), k, logs[k]) { assert Agrees(w, k, logs[k]); }
  }

  lemma ReleaseKeepsOthers(s: Sys, h: nat, b: Arr)
    requires h < |s.live| && s.pool.blocks != [] && ArrOk(s, b) && b.range != h && b.header != h
    ensures ArrOk(Release(s, h), b)
  {
    hide Room;
  }

  lemma DestroyOk(w: World, k: nat, logs: seq<Log>)
    requires WInv(w) && AllAgree(w, logs) && Alive(w, k)
    ensures StepOk(Do(w, Destroy(k)), logs, Foreign(w.sys))
  {
    hide Release, Room, HostOk, Owning, BlockOk, LiveOk, RecordsHeld, Foreign, Window, Flat, Amortised;
    var a := w.slots[k].arr;
    assert ArrOk(w.sys, a);
    RoomPositive(a.size, a.nalloc);
    ReleaseSafe(w.sys, a.range);
    ReleaseConserves(w.sys, a.range);
    var t := Release(w.sys, a.range);
    ReleaseLive(w.sys, a.range);
    ReleaseSafe(t, a.header);
    ReleaseConserves(t, a.header);
    var v := Do(w, Destroy(k));
    forall l | 0 <= l < |w.slots| && l != k && w.slots[l].alive ensures ArrOk(v.sys, w.slots[l].arr) {
      SeparateBoth(w.slots, k, l);
      ReleaseKeepsOthers(w.sys, a.range, w.slots[l].arr);
      ReleaseKeepsOthers(t, a.header, w.slots[l].arr);
    }
    forall l | 0 <= l < |logs| ensures Agrees(v, l, logs[l]) { assert Agrees(w, l, logs[l]); }
  }

  /** Every operation keeps the pool safe, every array equal to its log, and the host's other ranges. */
  lemma StepIsOk(w: World, op: Op, logs: seq<Log>)
    requires WInv(w) && AllAgree(w, logs) && Legal(w, op)
    ensures StepOk(Do(w, op), Note(w, op, logs), Others(Foreign(w.sys), op))
  {
    hide WInv, AllAgree, Do, StepOk, Foreign;
    match op
    case Alloc(size, aligned, zero, g) => AllocOk(w, size, aligned, zero, g, logs);
    case Create(n, size, g0, g) => CreateOk(w, n, size, g0, g, logs);
    case PushOne(k, elem, g) => PushOneOk(w, k, elem, g, logs);
    case PushMany(k, n, elems, g) => PushManyOk(w, k, n, elems, g, logs);
    case Fill(h, bytes) => FillOk(w, h, bytes, logs);
    case Destroy(k) => DestroyOk(w, k, logs);
    case OthersTake(a, n) => OthersTakeOk(w, a, n, logs);
    case OthersFree(a) => OthersFreeOk(w, a, logs);
  }

  // ---------------------------------------------------------------- runs

  /** Logs that say of every array what it holds now. */
  function Snapshot(w: World): seq<Log> {
    seq(|w.slots|, k requires 0 <= k < |w.slots| => Log(w.slots[k].arr.nalloc, 0, Flat(w.mem, w.slots[k].arr)))
  }

  lemma DoKeepsWInv(w: World, op: Op)
    requires WInv(w) && Legal(w, op)
    ensures WInv(Do(w, op))
  {
    hide WInv, Flat, Do;
    assert AllAgree(w, Snapshot(w));
    StepIsOk(w, op, Snapshot(w));
  }

  ghost predicate LegalRun(w: World, ops: seq<Op>)
    requires WInv(w)
    decreases |ops|
  {
    ops == [] || (Legal(w, ops[0]) && (DoKeepsWInv(w, ops[0]); LegalRun(Do(w, ops[0]), ops[1..])))
  }

  ghost function Run(w: World, ops: seq<Op>): World
    requires WInv(w) && LegalRun(w, ops)
    decreases |ops|
  {
    if ops == [] then w else DoKeepsWInv(w, ops[0]); Run(Do(w, ops[0]), ops[1..])
  }

  ghost function RunLogs(w: World, ops: seq<Op>, logs: seq<Log>): seq<Log>
    requires WInv(w) && LegalRun(w, ops) && AllAgree(w, logs)
    decreases |ops|
  {
    if ops == [] then logs
    else
      StepIsOk(w, ops[0], logs);
      RunLogs(Do(w, ops[0]), ops[1..], Note(w, ops[0], logs))
  }

  lemma {:induction false} RunIsOk(w: World, ops: seq<Op>, logs: seq<Log>)
    requires WInv(w) && LegalRun(w, ops) && AllAgree(w, logs)
    ensures StepOk(Run(w, ops), RunLogs(w, ops, logs), AllOthers(Foreign(w.sys), ops))
    decreases |ops|
  {
    hide WInv, Agrees, Do, Note, Foreign, Legal;
    if ops != [] {
      StepIsOk(w, ops[0], logs);
      RunIsOk(Do(w, ops[0]), ops[1..], Note(w, ops[0], logs));
    }
  }

  /** cw_create_pool is asked for a whole number of alignment units, enough for the header, and the host grants them. */
  ghost predicate Creatable(host: map<int, nat>, size: nat, align: nat, grant: int) {
    && HostOk(host) && IsAlignment(align) && POOL_HEADER <= size && AlignedTo(size, align)
    && FreshRange(host, grant, size)
  }

  /** A pool just created, with nothing in it. */
  ghost function Newborn(host: map<int, nat>, size: nat, align: nat, grant: int): (w: World)
    requires Creatable(host, size, align, grant)
    ensures WInv(w) && AllAgree(w, []) && Foreign(w.sys) == host
  {
    CreatedOk(host, size, align, grant);
    World(Created(host, size, align, grant), map[], [])
  }

  /** The blocks cw_palloc_small looks at before it succeeds or gives up. */
  function Examined(p: Pool, aligned: bool, size: nat): nat
    requires p.current < |p.blocks|
  {
    var j := FirstFit(p.blocks, p.current, p.align, aligned, size);
    j - p.current + if j < |p.blocks| then 1 else 0
  }

  /**
    The life of a pool from cw_create_pool on, under any interleaving of operations and any host:
    ranges in use never meet and lie in payloads or chunks of their own; no small allocation looks
    at more than seven blocks; every live array holds exactly the bytes pushed to it, having copied
    no more elements than the capacity it gained; and the host holds for its other clients what it would hold without
    the pool.
   */
  lemma PoolLifetime(host: map<int, nat>, size: nat, align: nat, grant: int, ops: seq<Op>)
    requires Creatable(host, size, align, grant)
    requires LegalRun(Newborn(host, size, align, grant), ops)
    ensures var w0 := Newborn(host, size, align, grant);
            var w := Run(w0, ops);
            var logs := RunLogs(w0, ops, []);
            && (forall h :: 0 <= h < |w.sys.live| ==> Housed(w.sys, w.sys.live[h]))
            && (forall h, h' :: 0 <= h < h' < |w.sys.live| ==> Apart(w.sys.live[h], w.sys.live[h']))
            && w.sys.pool.current < |w.sys.pool.blocks|
            && (forall aligned, n: nat :: Examined(w.sys.pool, aligned, n) <= 7)
            && |logs| == |w.slots|
            && (forall k :: 0 <= k < |logs| && w.slots[k].alive ==> HoldsLog(w, k, logs[k]))
            && Foreign(w.sys) == AllOthers(host, ops)
  {
    hide Foreign, Created, Flat, Run, RunLogs, LegalRun, RecordsHeld, HostOk, Owning, BlockOk, Newborn;
    var w0 := Newborn(host, size, align, grant);
    RunIsOk(w0, ops, []);
    var w, logs := Run(w0, ops), RunLogs(w0, ops, []);
    forall k | 0 <= k < |logs| && w.slots[k].alive ensures HoldsLog(w, k, logs[k]) {
      assert Agrees(w, k, logs[k]);
    }
  }

  /** The array holds exactly its log, within its capacity, and its growth has cost a linear number of copies. */
  ghost predicate HoldsLog(w: World, k: nat, log: Log)
    requires k < |w.slots|
  {
    var a := w.slots[k].arr;
    && Flat(w.mem, a) == log.bytes && a.nelts <= a.nalloc
    && log.copied + log.first <= a.nalloc && (a.nalloc <= log.first || a.nalloc <= 2 * a.nelts)
  }
}
