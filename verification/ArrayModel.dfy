/**
  The growable array over the pool, as values: cw_array_push and cw_array_push_n on a record,
  the pool they take room from, and the bytes they copy.
 */
module ArrayModel {
  import opened Bytes
  import opened Memory
  import opened PoolModel
  import opened PoolSafety
  import opened PoolTail

  const ARRAY_HEADER := 40   // sizeof(cw_array_t)

  /**
    A cw_array_t: the address and layout of its elements. `range` and `header` say which of the
    ranges handed out hold the elements and the record itself.
   */
  datatype Arr = Arr(elts: int, nelts: nat, size: nat, nalloc: nat, range: nat, header: nat)

  /** What a push does: the pool and the array after it, the slot returned (0 for NULL), and whether elements moved. */
  datatype Pushed = Pushed(sys: Sys, arr: Arr, elt: int, moved: bool)

  /** The bytes that n elements take. Products of sizes are taken without wrap-around. */
  function Room(size: nat, n: nat): nat {
    size * n
  }

  function Elt(a: Arr, i: nat): int {
    a.elts + Room(a.size, i)
  }

  /** The elements end where the head block is filled up to, and the block has `extra` bytes left behind them. */
  predicate GrowsInPlace(s: Sys, a: Arr, extra: nat)
    requires s.pool.blocks != []
  {
    a.elts + Room(a.size, a.nalloc) == s.pool.blocks[0].last && s.pool.blocks[0].last + extra <= s.pool.blocks[0].end
  }

  /**
    Room for n more elements, obtained in place or by moving to nalloc' elements; elt is the slot
    after the last element.
   */
  function Grow(s: Sys, a: Arr, n: nat, nalloc': nat, g: Grants): Pushed
    requires Chained(s.pool) && a.range < |s.live|
  {
    if GrowsInPlace(s, a, Room(a.size, n)) then
      Pushed(Resize(s, a.range, s.live[a.range].size + Room(a.size, n)),
             a.(nalloc := a.nalloc + n, nelts := a.nelts + n), Elt(a, a.nelts), false)
    else
      var (t, m) := Palloc(s, Room(a.size, nalloc'), true, g);
      if m == 0 then Pushed(t, a, 0, false)
      else
        var b := a.(elts := m, nalloc := nalloc', range := |t.live| - 1, nelts := a.nelts + n);
        Pushed(t, b, Elt(b, a.nelts), true)
  }

  /** cw_array_push. */
  function Push(s: Sys, a: Arr, g: Grants): Pushed
    requires Chained(s.pool) && a.range < |s.live|
  {
    if a.nelts == a.nalloc then Grow(s, a, 1, 2 * a.nalloc, g)
    else Pushed(s, a.(nelts := a.nelts + 1), Elt(a, a.nelts), false)
  }

  function Doubled(a: Arr, n: nat): nat {
    2 * if n >= a.nalloc then n else a.nalloc
  }

  /** cw_array_push_n. */
  function PushN(s: Sys, a: Arr, n: nat, g: Grants): Pushed
    requires Chained(s.pool) && a.range < |s.live|
  {
    if a.nelts + n > a.nalloc then Grow(s, a, n, Doubled(a, n), g)
    else Pushed(s, a.(nelts := a.nelts + n), Elt(a, a.nelts), false)
  }

  /** The memory after a push: a move copies the elements. */
  function Copied(mem: Mem, a: Arr, p: Pushed): Mem {
    if p.moved then Store(mem, p.arr.elts, Load(mem, a.elts, Room(a.size, a.nelts))) else mem
  }

  /** The elements, as the bytes they occupy. */
  function Flat(mem: Mem, a: Arr): Bytes {
    Load(mem, a.elts, Room(a.size, a.nelts))
  }

  /** cw_array_create with cw_array_init: a record and room for n elements, both from the pool. */
  function CreateArray(s: Sys, n: nat, size: nat, g0: Grants, g: Grants): (Sys, Option<Arr>)
    requires Chained(s.pool)
  {
    var (t, header) := Palloc(s, ARRAY_HEADER, true, g0);
    if header == 0 then (t, None)
    else
      var (u, elts) := Palloc(t, Room(size, n), true, g);
      if elts == 0 then (u, None)
      else
        var range := if u.live == [] then 0 else |u.live| - 1;
        (u, Some(Arr(elts, 0, size, n, range, if t.live == [] then 0 else |t.live| - 1)))
  }

  /** cw_array_destroy: the elements first, then the record. */
  function DestroyArray(s: Sys, a: Arr): Sys
    requires s.pool.blocks != [] && a.range < |s.live| && a.header < |s.live|
  {
    Release(Release(s, a.range), a.header)
  }

  // ---------------------------------------------------------------- what every array satisfies

  ghost predicate ArrOk(s: Sys, a: Arr) {
    && 1 <= a.size && 1 <= a.nalloc && a.nelts <= a.nalloc
    && a.range < |s.live| && a.header < |s.live| && a.range != a.header
    && !s.live[a.range].record && !s.live[a.header].record
    && s.live[a.range].addr == a.elts && s.live[a.range].size == Room(a.size, a.nalloc)
    && s.live[a.header].size == ARRAY_HEADER
  }

  /** Every range but h is as it was, h has not lost anything, and ranges were only added. */
  ghost predicate Extends(s: Sys, t: Sys, h: nat)
    requires h < |s.live|
  {
    && |s.live| <= |t.live|
    && (forall k :: 0 <= k < |s.live| && k != h ==> t.live[k] == s.live[k])
    && t.live[h] == s.live[h].(size := t.live[h].size) && s.live[h].size <= t.live[h].size
  }

  lemma RoomAdds(size: nat, m: nat, n: nat)
    ensures Room(size, m + n) == Room(size, m) + Room(size, n)
  {
  }

  lemma RoomGrows(size: nat, m: nat, n: nat)
    requires m <= n
    ensures Room(size, m) <= Room(size, n)
  {
    RoomAdds(size, m, n - m);
  }

  lemma RoomPositive(size: nat, n: nat)
    requires size >= 1 && n >= 1
    ensures Room(size, n) >= 1
  {
    RoomAdds(size, 1, n - 1);
  }

  /** A grown array has its new slots in its own range, whether it stayed or moved. */
  ghost predicate GrowOk(s: Sys, a: Arr, n: nat, p: Pushed)
    requires a.range < |s.live|
  {
    && Inv(p.sys) && SameShape(s.pool, p.sys.pool) && Extends(s, p.sys, a.range)
    && if p.elt == 0 then p.sys == s && p.arr == a && !p.moved
       else
         && ArrOk(p.sys, p.arr)
         && p.arr.nelts == a.nelts + n && p.arr.size == a.size && p.arr.header == a.header
         && p.elt == Elt(p.arr, a.nelts)
         && if p.moved then p.arr.range >= |s.live| else p.arr.elts == a.elts && p.arr.range == a.range
  }

  lemma GrowInPlaceOk(s: Sys, a: Arr, n: nat)
    requires Inv(s) && ArrOk(s, a) && GrowsInPlace(s, a, Room(a.size, n))
    ensures var p := Pushed(Resize(s, a.range, s.live[a.range].size + Room(a.size, n)),
                            a.(nalloc := a.nalloc + n, nelts := a.nelts + n), Elt(a, a.nelts), false);
            GrowOk(s, a, n, p) && p.elt != 0
  {
    hide Room, HostOk, Owning, LiveOk, RecordsHeld, BlockOk;
    RoomPositive(a.size, a.nalloc);
    RoomAdds(a.size, a.nalloc, n);
    ResizeSafe(s, a.range, s.live[a.range].size + Room(a.size, n));
    RangeNotNull(s, a.range);
  }

  lemma RangeNotNull(s: Sys, h: nat)
    requires Inv(s) && h < |s.live|
    ensures s.live[h].addr > 0
  {
    assert Housed(s, s.live[h]);
    var b := HousedInHost(s, s.live[h]);
  }

  lemma GrowMovedOk(s: Sys, a: Arr, n: nat, nalloc': nat, g: Grants)
    requires Inv(s) && ArrOk(s, a) && a.nelts + n <= nalloc' && 1 <= nalloc' && LegalGrants(s, Room(a.size, nalloc'), g)
    requires !GrowsInPlace(s, a, Room(a.size, n))
    ensures GrowOk(s, a, n, Grow(s, a, n, nalloc', g))
  {
    hide Room, Palloc, HostOk, Owning, LiveOk, RecordsHeld, BlockOk;
    PallocSafe(s, Room(a.size, nalloc'), true, g);
    var (t, m) := Palloc(s, Room(a.size, nalloc'), true, g);
    if m != 0 {
      RangeNotNull(t, |t.live| - 1);
    }
  }

  lemma GrowIsOk(s: Sys, a: Arr, n: nat, nalloc': nat, g: Grants)
    requires Inv(s) && ArrOk(s, a) && a.nelts + n <= nalloc' && 1 <= nalloc'
    requires LegalGrants(s, Room(a.size, nalloc'), g)
    ensures GrowOk(s, a, n, Grow(s, a, n, nalloc', g))
  {
    hide Room, GrowOk, HostOk, Owning, LiveOk, RecordsHeld, BlockOk;
    if GrowsInPlace(s, a, Room(a.size, n)) {
      GrowInPlaceOk(s, a, n);
    } else {
      GrowMovedOk(s, a, n, nalloc', g);
    }
  }

  lemma PushIsOk(s: Sys, a: Arr, g: Grants)
    requires Inv(s) && ArrOk(s, a) && LegalGrants(s, Room(a.size, 2 * a.nalloc), g)
    ensures GrowOk(s, a, 1, Push(s, a, g))
  {
    if a.nelts == a.nalloc {
      GrowIsOk(s, a, 1, 2 * a.nalloc, g);
    } else {
      SlotNotNull(s, a);
    }
  }

  lemma PushNIsOk(s: Sys, a: Arr, n: nat, g: Grants)
    requires Inv(s) && ArrOk(s, a) && LegalGrants(s, Room(a.size, Doubled(a, n)), g)
    ensures GrowOk(s, a, n, PushN(s, a, n, g))
  {
    if a.nelts + n > a.nalloc {
      GrowIsOk(s, a, n, Doubled(a, n), g);
    } else {
      SlotNotNull(s, a);
    }
  }

  lemma SlotNotNull(s: Sys, a: Arr)
    requires Inv(s) && ArrOk(s, a)
    ensures Elt(a, a.nelts) > 0 && SameShape(s.pool, s.pool) && Extends(s, s, a.range)
  {
    RangeNotNull(s, a.range);
  }

  /** A push writes nothing but the copy of the elements, and that only if they move. */
  lemma CopiesElementsOnly(mem: Mem, a: Arr, p: Pushed, x: int)
    ensures var n := if p.moved then a.size * a.nelts else 0;
            At(Copied(mem, a, p), x)
            == if p.arr.elts <= x < p.arr.elts + n then At(mem, a.elts + (x - p.arr.elts)) else At(mem, x)
  {
    if p.moved {
      AtStored(mem, p.arr.elts, Load(mem, a.elts, Room(a.size, a.nelts)), x);
    }
  }

  // ---------------------------------------------------------------- several arrays in one pool

  predicate Separate(a: Arr, b: Arr) {
    a.range != b.range && a.range != b.header && a.header != b.range && a.header != b.header
  }

  /** A write inside range h of the pool leaves the elements of an array in another range alone. */
  lemma WriteApart(s: Sys, mem: Mem, h: nat, a: int, bs: Bytes, arr: Arr)
    requires Inv(s) && h < |s.live| && ArrOk(s, arr) && arr.range != h
    requires s.live[h].addr <= a && a + |bs| <= s.live[h].addr + s.live[h].size
    ensures Flat(Store(mem, a, bs), arr) == Flat(mem, arr)
  {
    hide Store, Load, HostOk, Owning, Geometry, RecordsHeld, Room;
    var r, q := s.live[h], s.live[arr.range];
    if h < arr.range { assert Apart(r, q); } else { assert Apart(q, r); }
    RoomGrows(arr.size, arr.nelts, arr.nalloc);
    LoadApart(mem, a, bs, arr.elts, Room(arr.size, arr.nelts));
  }

  lemma ArrStays(s: Sys, t: Sys, h: nat, arr: Arr)
    requires ArrOk(s, arr) && h < |s.live| && Extends(s, t, h) && arr.range != h && arr.header != h
    ensures ArrOk(t, arr)
  {
    assert t.live[arr.range] == s.live[arr.range] && t.live[arr.header] == s.live[arr.header];
  }

  /** Where a push may write: the range of the array after it, within its length. */
  lemma PushStaysInside(s: Sys, a: Arr, n: nat, p: Pushed)
    requires ArrOk(s, a) && GrowOk(s, a, n, p) && p.elt != 0
    ensures p.arr.range < |p.sys.live|
    ensures var r := p.sys.live[p.arr.range];
            && r.addr == p.arr.elts && r.addr <= p.elt && p.elt + Room(a.size, n) <= r.addr + r.size
            && Room(a.size, a.nelts) <= r.size
  {
    hide Inv, Room, Extends;
    RoomAdds(a.size, a.nelts, n);
    RoomGrows(a.size, a.nelts + n, p.arr.nalloc);
  }

  lemma ArrKept(s: Sys, t: Sys, a: Arr)
    requires ArrOk(s, a) && s.live <= t.live
    ensures ArrOk(t, a) && t.live[a.range] == s.live[a.range] && t.live[a.header] == s.live[a.header]
  {
  }

  /** Growth leaves another array of the pool where it is and as it is. */
  lemma GrowthLeavesOthers(s: Sys, mem: Mem, a: Arr, n: nat, p: Pushed, b: Arr)
    requires ArrOk(s, a) && ArrOk(s, b) && Separate(a, b) && GrowOk(s, a, n, p)
    ensures ArrOk(p.sys, b) && Separate(p.arr, b) && p.sys.live[b.header].addr == s.live[b.header].addr
    ensures Flat(Copied(mem, a, p), b) == Flat(mem, b)
  {
    hide Store, Load, Room, HostOk, Owning, LiveOk, RecordsHeld, Geometry;
    ArrStays(s, p.sys, a.range, b);
    if p.moved {
      PushStaysInside(s, a, n, p);
      WriteApart(p.sys, mem, p.arr.range, p.arr.elts, Load(mem, a.elts, Room(a.size, a.nelts)), b);
    }
  }

  /** Every other array is sound before and after, apart from this one, and has the elements it had. */
  ghost predicate OthersStay(s: Sys, mem: Mem, a: Arr, t: Sys, mem': Mem, a': Arr) {
    forall b: Arr :: ArrOk(s, b) && Separate(a, b) ==>
      && ArrOk(t, b) && Separate(a', b) && t.live[b.header].addr == s.live[b.header].addr
      && Flat(mem', b) == Flat(mem, b)
  }

  lemma GrowthKeepsOthers(s: Sys, mem: Mem, a: Arr, n: nat, p: Pushed)
    requires ArrOk(s, a) && GrowOk(s, a, n, p)
    ensures OthersStay(s, mem, a, p.sys, Copied(mem, a, p), p.arr)
  {
    hide ArrOk, GrowOk, Flat, Copied, Separate;
    forall b: Arr | ArrOk(s, b) && Separate(a, b)
      ensures ArrOk(p.sys, b) && Separate(p.arr, b)
      ensures b.header < |s.live| && b.header < |p.sys.live| && p.sys.live[b.header].addr == s.live[b.header].addr
      ensures Flat(Copied(mem, a, p), b) == Flat(mem, b)
    {
      GrowthLeavesOthers(s, mem, a, n, p, b);
      HeaderIsARange(s, b);
      HeaderIsARange(p.sys, b);
    }
  }

  lemma HeaderIsARange(s: Sys, a: Arr)
    requires ArrOk(s, a)
    ensures a.header < |s.live|
  {
  }
}
