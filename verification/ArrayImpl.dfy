/**
  cw_array_t as the C code has it: a record updated in place, over the linked pool. Every method
  is proved against the functions of ArrayModel.
 */
module ArrayImpl {
  import opened Bytes
  import opened Memory
  import opened PoolModel
  import opened PoolSafety
  import opened PoolTail
  import opened PoolWindow
  import opened PoolImpl
  import opened ArrayModel

  class Array {
    const pool: PoolImpl.Pool
    const size: nat
    const address: int      // where the record lies
    var elts: int
    var nelts: nat
    var nalloc: nat
    ghost var range: nat    // which range handed out holds the elements
    ghost var header: nat   // and which one holds this record

    ghost function Rec(): Arr
      reads this
    {
      Arr(elts, nelts, size, nalloc, range, header)
    }

    ghost predicate Valid()
      reads this, pool, pool.host, pool.chain, pool.list
    {
      pool.Valid() && ArrOk(pool.sys, Rec()) && pool.sys.live[header].addr == address
    }

    /** cw_array_init, in a record just allocated. */
    constructor (pool: PoolImpl.Pool, address: int, n: nat, size: nat, elts: int, ghost range: nat, ghost header: nat)
      ensures this.pool == pool && this.address == address && Rec() == Arr(elts, 0, size, n, range, header)
    {
      this.pool, this.address, this.size, this.elts, nelts, nalloc := pool, address, size, elts, 0, n;
      this.range, this.header := range, header;
    }

    /** What a push leaves behind, given what the model says of it. */
    ghost predicate Is(p: Pushed, elt: int)
      reads this, pool
    {
      pool.sys == p.sys && Rec() == p.arr && elt == p.elt
    }

    /** Growth in place, shared by cw_array_push and cw_array_push_n: d.last moves on. */
    method Stretch(n: nat) returns (elt: int)
      requires Valid() && GrowsInPlace(pool.sys, Rec(), Room(size, n))
      modifies this, pool`sys, pool.head`last
      ensures Valid()
      ensures elt != 0
      ensures forall k, g :: Is(ArrayModel.Grow(old(pool.sys), old(Rec()), n, k, g), elt)
    {
      hide Inv, Window, LegalGrants, Room, PoolModel.Palloc, SameShape, Resize;
      ghost var s, a := pool.sys, Rec();
      pool.HeadIs();
      RoomFacts(size, nalloc);
      GrowInPlaceOk(s, a, n);
      pool.ResizeTail(range, s.live[range].size + Room(size, n), Room(size, n));
      nalloc := nalloc + n;
      elt := elts + Room(size, nelts);
      nelts := nelts + n;
    }

    /** Growth by moving, shared by cw_array_push and cw_array_push_n: room for nalloc' elements, and a copy. */
    method Move(n: nat, nalloc': nat) returns (elt: int, ghost g: Grants)
      requires Valid() && !GrowsInPlace(pool.sys, Rec(), Room(size, n))
      requires nelts + n <= nalloc' && 1 <= nalloc'
      modifies this, pool, pool.host, pool.chain, pool.list
      ensures Valid() && pool.Grows()
      ensures LegalGrants(old(pool.sys), Room(size, nalloc'), g)
      ensures var p := ArrayModel.Grow(old(pool.sys), old(Rec()), n, nalloc', g);
              Is(p, elt) && pool.host.mem == Copied(old(pool.host.mem), old(Rec()), p)
      ensures pool.host.refused >= old(pool.host.refused) && (elt == 0 <==> pool.host.refused > old(pool.host.refused))
    {
      hide Inv, Window, LegalGrants, Room, Load, Store, PoolModel.Palloc, GrowOk, ArrOk, GrowsInPlace;
      hide PoolImpl.Pool.Shape;
      ghost var s, a := pool.sys, Rec();
      var moved;
      moved, g := pool.Palloc(Room(size, nalloc'), true);
      GrowMovedOk(s, a, n, nalloc', g);
      MovedFacts(s, a, n, nalloc', g);
      if moved == 0 {
        return 0, g;
      }
      pool.host.Copy(moved, elts, Room(size, nelts));
      elts := moved;
      nalloc := nalloc';
      range := |pool.sys.live| - 1;
      elt := elts + Room(size, nelts);
      nelts := nelts + n;
    }

    /** cw_array_push. */
    method Push() returns (elt: int, ghost g: Grants)
      requires Valid()
      modifies this, pool, pool.host, pool.chain, pool.list
      ensures Valid() && pool.Grows()
      ensures LegalGrants(old(pool.sys), Room(size, 2 * old(nalloc)), g)
      ensures var p := ArrayModel.Push(old(pool.sys), old(Rec()), g);
              Is(p, elt) && pool.host.mem == Copied(old(pool.host.mem), old(Rec()), p)
      ensures OthersStay(old(pool.sys), old(pool.host.mem), old(Rec()), pool.sys, pool.host.mem, Rec())
      ensures pool.host.refused >= old(pool.host.refused) && (elt == 0 <==> pool.host.refused > old(pool.host.refused))
    {
      hide Inv, Window, LegalGrants, Room, Grow, Load, Store, OthersStay, GrowOk;
      ghost var s, a := pool.sys, Rec();
      ghost var mem := pool.host.mem;
      g := Grants(0, 0);
      NoGrants(s, Room(size, 2 * nalloc));
      pool.HeadIs();
      RoomFacts(size, nalloc);
      if nelts == nalloc {
        if elts + Room(size, nalloc) == pool.head.last && pool.head.last + size <= pool.head.end {
          elt := Stretch(1);
          StretchCopiesNothing(s, a, 1, 2 * a.nalloc, g);
        } else {
          elt, g := Move(1, 2 * nalloc);
        }
      } else {
        SlotNotNull(s, a);
        elt := elts + Room(size, nelts);
        nelts := nelts + 1;
      }
      PushIsOk(s, a, g);
      GrowthKeepsOthers(s, mem, a, 1, ArrayModel.Push(s, a, g));
    }

    /** cw_array_push_n. */
    method PushN(n: nat) returns (elt: int, ghost g: Grants)
      requires Valid()
      modifies this, pool, pool.host, pool.chain, pool.list
      ensures Valid() && pool.Grows()
      ensures LegalGrants(old(pool.sys), Room(size, Doubled(old(Rec()), n)), g)
      ensures var p := ArrayModel.PushN(old(pool.sys), old(Rec()), n, g);
              Is(p, elt) && pool.host.mem == Copied(old(pool.host.mem), old(Rec()), p)
      ensures OthersStay(old(pool.sys), old(pool.host.mem), old(Rec()), pool.sys, pool.host.mem, Rec())
      ensures pool.host.refused >= old(pool.host.refused) && (elt == 0 <==> pool.host.refused > old(pool.host.refused))
    {
      hide Inv, Window, LegalGrants, Room, Grow, Load, Store, OthersStay, GrowOk;
      ghost var s, a := pool.sys, Rec();
      ghost var mem := pool.host.mem;
      g := Grants(0, 0);
      NoGrants(s, Room(size, Doubled(a, n)));
      pool.HeadIs();
      if nelts + n > nalloc {
        if elts + Room(size, nalloc) == pool.head.last && pool.head.last + Room(size, n) <= pool.head.end {
          elt := Stretch(n);
          StretchCopiesNothing(s, a, n, Doubled(a, n), g);
        } else {
          elt, g := Move(n, 2 * if n >= nalloc then n else nalloc);
        }
      } else {
        SlotNotNull(s, a);
        elt := elts + Room(size, nelts);
        nelts := nelts + n;
      }
      PushNIsOk(s, a, n, g);
      GrowthKeepsOthers(s, mem, a, n, ArrayModel.PushN(s, a, n, g));
    }

    /** cw_array_destroy. The array must not be used afterwards. */
    method Destroy()
      requires Valid()
      modifies pool`sys, pool.head`last
      ensures pool.Valid() && pool.sys == DestroyArray(old(pool.sys), Rec())
    {
      hide Inv, Window, Room, Release;
      RoomFacts(size, nalloc);
      ReleaseLive(pool.sys, range);
      pool.Release(range, elts + Room(size, nalloc), Room(size, nalloc));
      pool.Release(header, address + ARRAY_HEADER, ARRAY_HEADER);
    }
  }

  /** Where an array that could not grow in place ends up. */
  lemma MovedFacts(s: Sys, a: Arr, n: nat, nalloc': nat, g: Grants)
    requires Inv(s) && ArrOk(s, a) && !GrowsInPlace(s, a, Room(a.size, n))
    requires GrowOk(s, a, n, Grow(s, a, n, nalloc', g))
    ensures var (t, m) := PoolModel.Palloc(s, Room(a.size, nalloc'), true, g);
            var p := Grow(s, a, n, nalloc', g);
            && p.sys == t
            && if m == 0 then t == s && p == Pushed(s, a, 0, false)
               else
                 && t.live != [] && ArrOk(t, p.arr) && t.live[a.header].addr == s.live[a.header].addr && p.elt != 0
                 && p == Pushed(t, Arr(m, a.nelts + n, a.size, nalloc', |t.live| - 1, a.header),
                                m + Room(a.size, a.nelts), true)
  {
    hide PoolModel.Palloc, Room, LiveOk, RecordsHeld, HostOk, Owning;
  }

  /** So another array object on the same pool stays valid, with its elements, over a push to this one. */
  twostate lemma OtherArrayStays(a: Array, b: Array)
    requires a.pool == b.pool && old(b.Valid()) && unchanged(b) && Separate(old(a.Rec()), old(b.Rec()))
    requires a.pool.Valid()
    requires OthersStay(old(a.pool.sys), old(a.pool.host.mem), old(a.Rec()), a.pool.sys, a.pool.host.mem, a.Rec())
    ensures b.Valid() && Separate(a.Rec(), b.Rec())
    ensures Flat(b.pool.host.mem, b.Rec()) == old(Flat(b.pool.host.mem, b.Rec()))
  {
    hide Inv, Window, Room, Load, PoolImpl.Pool.Shape;
  }

  lemma StretchCopiesNothing(s: Sys, a: Arr, n: nat, nalloc': nat, g: Grants)
    requires Chained(s.pool) && a.range < |s.live| && GrowsInPlace(s, a, Room(a.size, n))
    ensures !Grow(s, a, n, nalloc', g).moved
  {
  }

  /** cw_array_create: a record, then the room for n elements; the record is lost if the second request fails. */
  method CreateArray(pool: PoolImpl.Pool, n: nat, size: nat) returns (a: Array?, ghost g0: Grants, ghost g: Grants)
    requires pool.Valid() && 1 <= n && 1 <= size
    modifies pool, pool.host`live, pool.host`refused, pool.chain, pool.list
    ensures pool.Valid() && pool.Grows()
    ensures LegalGrants(old(pool.sys), ARRAY_HEADER, g0)
    ensures LegalGrants(PoolModel.Palloc(old(pool.sys), ARRAY_HEADER, true, g0).0, Room(size, n), g)
    ensures pool.host.refused >= old(pool.host.refused) && (a == null <==> pool.host.refused > old(pool.host.refused))
    ensures var (t, r) := ArrayModel.CreateArray(old(pool.sys), n, size, g0, g);
            && pool.sys == t
            && if a == null then r == None else fresh(a) && a.pool == pool && r == Some(a.Rec()) && a.Valid()
    ensures forall b: Arr :: ArrOk(old(pool.sys), b) ==>
              ArrOk(pool.sys, b) && (a != null ==> Separate(a.Rec(), b))
  {
    hide Inv, Window, LegalGrants, Room, PoolModel.Palloc, SameShape, PoolImpl.Pool.Shape;
    g := Grants(0, 0);
    ghost var s := pool.sys;
    var address;
    address, g0 := pool.Palloc(ARRAY_HEADER, true);
    PallocSafe(s, ARRAY_HEADER, true, g0);
    ghost var t := pool.sys;
    NoGrants(t, Room(size, n));
    if address == 0 {
      return null, g0, g;
    }
    assert forall i :: 0 <= i < |pool.chain| ==> pool.chain[i] in old(pool.chain) || fresh(pool.chain[i]);
    assert forall i :: 0 <= i < |pool.list| ==> pool.list[i] in old(pool.list) || fresh(pool.list[i]);
    var elts;
    elts, g := pool.Palloc(Room(size, n), true);
    PallocSafe(t, Room(size, n), true, g);
    if elts == 0 {
      return null, g0, g;
    }
    a := new Array(pool, address, n, size, elts, |pool.sys.live| - 1, |t.live| - 1);
  }

  lemma RoomFacts(size: nat, n: nat)
    ensures Room(size, 1) == size && Room(size, 2 * n) == 2 * Room(size, n)
    ensures size >= 1 && n >= 1 ==> Room(size, n) >= 1
  {
    RoomAdds(size, n, n);
    if size >= 1 && n >= 1 {
      RoomPositive(size, n);
    }
  }
}
