/**
  The tail of the head block: recognising a range that ends there, growing it in place, and
  giving it back.
 */
module PoolTail {
  import opened PoolModel
  import opened PoolSafety

  lemma ElsewhereEndsElsewhere(s: Sys, h: nat)
    requires Inv(s) && h < |s.live| && s.live[h].size > 0 && s.live[h].home != InBlock(0)
    ensures s.live[h].addr + s.live[h].size != s.pool.blocks[0].last
  {
    var r := s.live[h];
    var c := s.pool.blocks[0].base;
    assert Housed(s, r) && BlockOk(s.pool, 0);
    var b := HousedInHost(s, r);
    match r.home {
      case InBlock(i) => BlocksApart(s, i, 0);
      case OwnChunk => ChunkIsNoBlock(s, r.addr, 0);
    }
    assert Disjoint(b, s.host[b], c, s.host[c]);
  }

  /** Comparing an end address with d.last of the head block really tells that the range lies there. */
  lemma TailIsInHead(s: Sys, h: nat)
    requires Inv(s) && h < |s.live| && s.live[h].size > 0
    requires s.live[h].addr + s.live[h].size == s.pool.blocks[0].last
    ensures s.live[h].home == InBlock(0)
  {
    if s.live[h].home != InBlock(0) {
      ElsewhereEndsElsewhere(s, h);
    }
  }

  /** Range h resized, and d.last of the head block moved by the difference. */
  function Resize(s: Sys, h: nat, size: nat): Sys
    requires h < |s.live| && s.pool.blocks != []
  {
    var b := s.pool.blocks[0];
    s.(pool := s.pool.(blocks := s.pool.blocks[0 := b.(last := b.last + size - s.live[h].size)]),
       live := s.live[h := s.live[h].(size := size)])
  }

  lemma OthersBelow(s: Sys, h: nat, k: nat)
    requires Inv(s) && h < |s.live| && k < |s.live| && k != h
    requires s.live[h].size > 0 && s.live[h].home == InBlock(0)
    requires s.live[h].addr + s.live[h].size == s.pool.blocks[0].last
    requires s.live[k].home == InBlock(0) && s.live[k].size > 0
    ensures s.live[k].addr + s.live[k].size <= s.live[h].addr
  {
    assert Housed(s, s.live[k]);
    if h < k { assert Apart(s.live[h], s.live[k]); } else { assert Apart(s.live[k], s.live[h]); }
  }

  lemma ResizeGeometry(s: Sys, h: nat, size: nat)
    requires Geometry(s.pool) && Owning(s) && h < |s.live| && Housed(s, s.live[h]) && s.live[h].home == InBlock(0)
    requires s.live[h].addr + s.live[h].size == s.pool.blocks[0].last
    requires s.live[h].addr + size <= s.pool.blocks[0].end
    ensures var t := Resize(s, h, size); Geometry(t.pool) && Owning(t) && SameShape(s.pool, t.pool)
  {
    var t := Resize(s, h, size);
    forall j | 0 <= j < |t.pool.blocks| ensures BlockOk(t.pool, j) { assert BlockOk(s.pool, j); }
    assert forall j :: 0 <= j < |t.pool.blocks| ==> t.pool.blocks[j].base == s.pool.blocks[j].base;
  }

  /** Growing or shrinking the range at the tail of the head block keeps every range housed and apart. */
  lemma ResizeSafe(s: Sys, h: nat, size: nat)
    requires Inv(s) && h < |s.live| && !s.live[h].record
    requires s.live[h].size > 0 && s.live[h].addr + s.live[h].size == s.pool.blocks[0].last
    requires s.live[h].addr + size <= s.pool.blocks[0].end
    ensures Inv(Resize(s, h, size)) && SameShape(s.pool, Resize(s, h, size).pool) && s.live[h].home == InBlock(0)
  {
    hide HostOk, Owning, BlockOk, RecordHeld;
    var t := Resize(s, h, size);
    TailIsInHead(s, h);
    assert Housed(s, s.live[h]);
    ResizeGeometry(s, h, size);
    forall k | 0 <= k < |t.live| ensures Housed(t, t.live[k]) {
      assert Housed(s, s.live[k]);
      if k != h && s.live[k].home == InBlock(0) && s.live[k].size > 0 { OthersBelow(s, h, k); }
    }
    forall k, l | 0 <= k < l < |t.live| ensures Apart(t.live[k], t.live[l]) {
      assert Apart(s.live[k], s.live[l]);
      if k == h { ResizedApart(s, h, size, l); }
      if l == h { ResizedApart(s, h, size, k); }
    }
    RecordsSurvive(s, t, h);
  }

  lemma ResizedApart(s: Sys, h: nat, size: nat, k: nat)
    requires Inv(s) && h < |s.live| && k < |s.live| && k != h
    requires s.live[h].size > 0 && s.live[h].home == InBlock(0)
    requires s.live[h].addr + s.live[h].size == s.pool.blocks[0].last && s.live[h].addr + size <= s.pool.blocks[0].end
    ensures Apart(s.live[k], s.live[h].(size := size))
  {
    hide RecordsHeld;
    var q := s.live[k];
    assert Housed(s, q) && Housed(s, s.live[h]) && BlockOk(s.pool, 0);
    if q.size > 0 {
      if q.home == InBlock(0) {
        OthersBelow(s, h, k);
      } else {
        match q.home {
          case InBlock(i) => assert BlockOk(s.pool, i); BlocksApart(s, i, 0);
          case OwnChunk => ChunkIsNoBlock(s, q.addr, 0);
        }
      }
    }
  }

  lemma RecordsSurvive(s: Sys, t: Sys, h: nat)
    requires RecordsHeld(s) && h < |s.live| && !s.live[h].record && t.pool.large == s.pool.large
    requires |t.live| == |s.live| && forall k :: 0 <= k < |s.live| && k != h ==> t.live[k] == s.live[k]
    ensures RecordsHeld(t)
  {
    forall k | 0 <= k < |t.pool.large| ensures RecordHeld(t.live, t.pool.large[k].record) {
      var a := s.pool.large[k].record;
      assert RecordHeld(s.live, a);
      var l :| 0 <= l < |s.live| && s.live[l].addr == a && s.live[l].size == LARGE_RECORD
        && s.live[l].record && s.live[l].home.InBlock?;
      assert t.live[l] == s.live[l];
    }
  }

  /** A client gives up a range without the pool taking it back. */
  function Drop(s: Sys, h: nat): Sys
    requires h < |s.live|
  {
    s.(live := s.live[h := s.live[h].(size := 0)])
  }

  lemma DropSafe(s: Sys, h: nat)
    requires Inv(s) && h < |s.live| && !s.live[h].record
    ensures Inv(Drop(s, h))
  {
    hide HostOk, Owning, Geometry, RecordHeld;
    var t := Drop(s, h);
    assert Owning(t) by { OwningIgnoresLive(s, t); }
    forall k | 0 <= k < |t.live| ensures Housed(t, t.live[k]) { assert Housed(s, s.live[k]); }
    forall k, l | 0 <= k < l < |t.live| ensures Apart(t.live[k], t.live[l]) { assert Apart(s.live[k], s.live[l]); }
    RecordsSurvive(s, t, h);
  }

  lemma OwningIgnoresLive(s: Sys, t: Sys)
    requires Owning(s) && t == s.(live := t.live)
    ensures Owning(t)
  {
  }

  /** One half of cw_array_destroy: a range that ends at d.last goes back to the pool, any other is left unused. */
  function Release(s: Sys, h: nat): Sys
    requires h < |s.live| && s.pool.blocks != []
  {
    if s.live[h].addr + s.live[h].size == s.pool.blocks[0].last then Resize(s, h, 0) else Drop(s, h)
  }

  lemma ReleaseSafe(s: Sys, h: nat)
    requires Inv(s) && h < |s.live| && !s.live[h].record && s.live[h].size > 0
    ensures Inv(Release(s, h)) && SameShape(s.pool, Release(s, h).pool)
  {
    hide HostOk, Owning, BlockOk, LiveOk, RecordsHeld;
    if s.live[h].addr + s.live[h].size == s.pool.blocks[0].last {
      HeadKnown(s);
      ResizeSafe(s, h, 0);
    } else {
      DropSafe(s, h);
    }
  }

  lemma HeadKnown(s: Sys)
    requires Inv(s)
    ensures s.pool.blocks[0].last <= s.pool.blocks[0].end
  {
    assert BlockOk(s.pool, 0);
  }

  lemma ReleaseLive(s: Sys, h: nat)
    requires h < |s.live| && s.pool.blocks != []
    ensures Release(s, h).live == s.live[h := s.live[h].(size := 0)]
  {
  }
}
