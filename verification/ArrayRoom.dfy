/**
  Arrays and the room of the pool: an array at the tail of the first block grows there, and an
  array just made gives its room back.
 */
module ArrayRoom {
  import opened PoolModel
  import opened PoolSafety
  import opened PoolRoom
  import opened ArrayModel

  const NONE := Grants(0, 0)   // the host has nothing

  lemma NothingAsked(s: Sys, a: Arr)
    requires Inv(s) && ArrOk(s, a)
    ensures Chained(s.pool) && a.range < |s.live| && LegalGrants(s, Room(a.size, 2 * a.nalloc), NONE)
    ensures Inv(Push(s, a, NONE).sys) && ArrOk(Push(s, a, NONE).sys, Push(s, a, NONE).arr)
  {
    hide Room, Push;
    PushIsOk(s, a, NONE);
  }

  /** k pushes, while the host has nothing. */
  ghost function Pushes(s: Sys, a: Arr, k: nat): (Sys, Arr)
    requires Inv(s) && ArrOk(s, a)
    decreases k
  {
    if k == 0 then (s, a)
    else
      NothingAsked(s, a);
      var p := Push(s, a, NONE);
      Pushes(p.sys, p.arr, k - 1)
  }

  /** The room of the array ends where the first block is filled up to. */
  predicate AtTail(s: Sys, a: Arr)
    requires s.pool.blocks != []
  {
    a.elts + Room(a.size, a.nalloc) == s.pool.blocks[0].last
  }

  lemma TailPush(s: Sys, a: Arr)
    requires Inv(s) && ArrOk(s, a) && AtTail(s, a) && s.pool.blocks[0].last + a.size <= s.pool.blocks[0].end
    ensures Chained(s.pool) && a.range < |s.live|
    ensures var p := Push(s, a, NONE);
            && !p.moved && p.elt != 0 && p.arr == a.(nelts := a.nelts + 1, nalloc := p.arr.nalloc)
            && p.sys.host == s.host && |p.sys.live| == |s.live|
            && |p.sys.pool.blocks| == |s.pool.blocks| && AtTail(p.sys, p.arr)
            && p.sys.pool.blocks[0].end == s.pool.blocks[0].end
            && p.sys.pool.blocks[0].last <= s.pool.blocks[0].last + a.size
  {
    hide HostOk, Owning, LiveOk, RecordsHeld, BlockOk, Palloc;
    SlotNotNull(s, a);
    assert Room(a.size, 1) == a.size && Room(a.size, a.nalloc + 1) == Room(a.size, a.nalloc) + a.size by {
      RoomAdds(a.size, a.nalloc, 1);
    }
    hide Room;
  }

  /** It grows where it is, as long as the block has room, and nothing is asked of the host. */
  lemma {:induction false} TailGrowsInPlace(s: Sys, a: Arr, k: nat)
    requires Inv(s) && ArrOk(s, a) && s.pool.blocks != [] && AtTail(s, a)
    requires s.pool.blocks[0].last + a.size * k <= s.pool.blocks[0].end
    ensures var (t, b) := Pushes(s, a, k);
            && b.elts == a.elts && b.range == a.range && b.nelts == a.nelts + k
            && t.host == s.host && |t.live| == |s.live| && |t.pool.blocks| == |s.pool.blocks|
    decreases k
  {
    hide Push, Inv, ArrOk, AtTail;
    if k > 0 {
      assert a.size * k == a.size + a.size * (k - 1);
      TailPush(s, a);
      NothingAsked(s, a);
      var p := Push(s, a, NONE);
      TailGrowsInPlace(p.sys, p.arr, k - 1);
    }
  }

  /** The first block is where the search starts, and it has this many bytes left behind its last range, rounded up. */
  ghost predicate HeadRoom(s: Sys, n: nat) {
    && s.pool.blocks != [] && s.pool.current == 0
    && AlignUp(s.pool.blocks[0].last, s.pool.align) + n <= s.pool.blocks[0].end
  }

  lemma TakenFromHead(s: Sys, n: nat)
    requires Inv(s) && HeadRoom(s, n) && n <= s.pool.max && Chained(s.pool)
    ensures var m := AlignUp(s.pool.blocks[0].last, s.pool.align);
            Palloc(s, n, true, NONE) == (Fill(s, 0, m, n, false), m) && m != 0 && Inv(Fill(s, 0, m, n, false))
  {
    hide HostOk, Owning, LiveOk, RecordsHeld, BlockOk, AlignUp, AlignedTo;
    AlignNotWrapped(s, 0);
    FitTestExact(s, 0, true, n);
    TakeFromBlock(s, 0, n, true, false);
  }

  /**
    An array made in the first block and destroyed at once gives back all its room but the rounding
    in front of it; with an alignment of 16 its record stays, because it does not end where the
    elements begin.
   */
  lemma DestroyGivesBack(s: Sys, n: nat, size: nat)
    requires Inv(s) && HeadRoom(s, 48 + size * n) && 1 <= n && 1 <= size && size * n <= s.pool.max
    requires ARRAY_HEADER <= s.pool.max
    ensures Chained(s.pool)
    ensures var (t, a) := CreateArray(s, n, size, NONE, NONE);
            && a.Some? && t.pool.blocks != [] && a.value.range < |t.live| && a.value.header < |t.live|
            && var u := DestroyArray(t, a.value);
               && u.host == s.host && |u.pool.blocks| == |s.pool.blocks| && u.pool.blocks[1..] == s.pool.blocks[1..]
               && u.pool.blocks[0].last
                  == AlignUp(s.pool.blocks[0].last, s.pool.align) + if s.pool.align == 16 then 48 else 0
  {
    hide HostOk, Owning, LiveOk, RecordsHeld, BlockOk, AlignUp, Palloc;
    var m := AlignUp(s.pool.blocks[0].last, s.pool.align);
    TakenFromHead(s, ARRAY_HEADER);
    var t := Fill(s, 0, m, ARRAY_HEADER, false);
    BehindRecord(s.pool.blocks[0].last, s.pool.align);
    TakenFromHead(t, Room(size, n));
  }

  /**
    An array is made of two requests, 40 bytes for the record and then room for the elements. If the
    second gets NULL the record stays in the pool; if the first does, nothing has happened.
   */
  lemma RecordIsLeft(s: Sys, n: nat, size: nat, g0: Grants, g: Grants)
    requires Inv(s) && Chained(s.pool) && LegalGrants(s, 40, g0)
    requires LegalGrants(Palloc(s, 40, true, g0).0, size * n, g)
    ensures var (t, a) := CreateArray(s, n, size, g0, g);
            a.None? ==> t == s || (t == Palloc(s, 40, true, g0).0 && |t.live| > |s.live|)
  {
    hide Palloc, LegalGrants, Room, HostOk, Owning, LiveOk, RecordsHeld, BlockOk;
    PallocSafe(s, 40, true, g0);
    assert Room(size, n) == size * n by { RoomIsProduct(size, n); }
    PallocSafe(Palloc(s, 40, true, g0).0, size * n, true, g);
  }

  lemma RoomIsProduct(size: nat, n: nat)
    ensures Room(size, n) == size * n
  {
  }

  /** Where the elements begin behind a record that has been rounded to m. */
  lemma BehindRecord(p: int, a: nat)
    requires IsAlignment(a)
    ensures AlignUp(AlignUp(p, a) + 40, a) == AlignUp(p, a) + if a == 16 then 48 else 40
  {
  }
}
