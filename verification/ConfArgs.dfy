/**
  cf->args: the argument list the tokenizer fills, word by word, in the pool the array of words
  itself lives in.
 */
module ConfArgs {
  import opened Bytes
  import opened Memory
  import opened ConfEscape
  import opened PoolModel
  import opened PoolSafety
  import opened PoolWindow
  import opened PoolConserve
  import opened PoolImpl
  import opened ArrayModel
  import opened ArrayImpl
  import opened ArgModel
  import opened PoolRequests
  import PoolRuns

  class ArgList {
    const args: Array
    ghost var ranges: seq<nat>           // the ranges of the words
    ghost var others: map<int, nat>      // what the host holds besides the pool

    ghost predicate Sound()
      reads this, args, args.pool, args.pool.host, args.pool.chain, args.pool.list
    {
      args.Valid() && args.size == STR_SIZE && Foreign(args.pool.sys) == others
    }

    /** A reader of args->elts sees exactly these words. */
    ghost predicate Sees(ws: seq<Bytes>)
      reads this, args, args.pool, args.pool.host, args.pool.chain, args.pool.list
    {
      && ArgsOk(args.pool.sys, args.pool.host.mem, args.Rec(), ranges)
      && Words(args.pool.host.mem, args.Rec()) == ws
    }

    /** Everything the list may touch. */
    ghost var Repr: set<object>

    ghost predicate Valid()
      reads this, Repr
    {
      && this in Repr && args in Repr && args.pool in Repr && args.pool.host in Repr
      && (forall i :: 0 <= i < |args.pool.chain| ==> args.pool.chain[i] in Repr)
      && (forall k :: 0 <= k < |args.pool.list| ==> args.pool.list[k] in Repr)
      && Sound()
    }

    /** Valid, but for what other clients of the host have done since. */
    ghost predicate Coherent()
      reads this, args, args.pool, args.pool.chain, args.pool.list
    {
      && this in Repr && args in Repr && args.pool in Repr && args.pool.host in Repr
      && (forall i :: 0 <= i < |args.pool.chain| ==> args.pool.chain[i] in Repr)
      && (forall k :: 0 <= k < |args.pool.list| ==> args.pool.list[k] in Repr)
      && args.pool.Coherent() && ArrOk(args.pool.sys, args.Rec())
      && args.pool.sys.live[args.header].addr == args.address
      && args.size == STR_SIZE && Foreign(args.pool.sys) == others
    }

    lemma ValidIsCoherent()
      requires Valid()
      ensures Coherent() && args.pool.sys.host == args.pool.host.live && HostOk(args.pool.host.live)
      ensures this in Repr && args.pool in Repr && args.pool.host in Repr
    {
      hide Window, Foreign, Geometry, Owning, LiveOk, RecordsHeld, PoolImpl.Pool.Shape;
    }

    lemma StillValid()
      requires Coherent() && args.pool.sys.host == args.pool.host.live
      ensures Valid()
    {
      hide Window, Foreign, Inv, PoolImpl.Pool.Shape;
    }

    lemma OthersAreHeld()
      requires Valid()
      ensures forall a :: a in others ==> a in args.pool.host.live && args.pool.host.live[a] == others[a]
    {
      hide Inv, Window, PoolImpl.Pool.Shape, Owned;
    }

    /** The pool goes, and with it the list, its words and everything taken since. */
    method Destroy()
      requires Valid()
      modifies args.pool.host`live
      ensures args.pool.host.live == others
    {
      hide Inv, Window, Foreign;
      args.pool.Destroy();
    }

    /** The host has granted a range to somebody else. */
    ghost method NoticeGrant(a: int, n: nat)
      requires Coherent() && FreshRange(args.pool.sys.host, a, n)
      requires args.pool.host.live == args.pool.sys.host[a := n]
      modifies this`others, args.pool`sys
      ensures Valid() && others == old(others)[a := n] && a !in old(others)
    {
      hide Inv, Window, Owned, PoolImpl.Pool.Shape;
      var s := args.pool.sys;
      GrantIsNew(s, a, n);
      args.pool.Notice();
      GrantIsForeign(s, a, n);
      others := others[a := n];
    }

    /** Somebody else has given a range back. */
    ghost method NoticeFree(a: int)
      requires Coherent() && a in others && args.pool.host.live == args.pool.sys.host - {a}
      modifies this`others, args.pool`sys
      ensures Valid() && others == old(others) - {a}
    {
      hide Inv, Window, Owned, PoolImpl.Pool.Shape;
      var s := args.pool.sys;
      FreeIsSpared(s, a);
      args.pool.Notice();
      FreeKeepsInv(s, a);
      others := others - {a};
    }

    /** cw_alloc by somebody else, from the host the pool takes its blocks from. */
    method AllocElsewhere(size: nat) returns (a: int)
      requires Valid()
      modifies Repr
      ensures Valid() && Repr == old(Repr)
      ensures others == (if a == 0 then old(others) else old(others)[a := size]) && (a != 0 ==> a !in old(others))
      ensures a == 0 || FreshRange(old(args.pool.host.live), a, size)
      ensures args.pool.host.refused == old(args.pool.host.refused) + if a == 0 then 1 else 0
    {
      hide Inv, Window, Foreign, Coherent, FreshRange, ArrOk;
      ValidIsCoherent();
      a := args.pool.host.Alloc(size);
      if a != 0 {
        NoticeGrant(a, size);
      }
    }

    /** cw_free by somebody else. */
    method FreeElsewhere(a: int)
      requires Valid() && a in others
      modifies Repr
      ensures Valid() && Repr == old(Repr) && others == old(others) - {a}
      ensures args.pool.host.refused == old(args.pool.host.refused)
    {
      hide Inv, Window, Owned, Coherent, ArrOk;
      ValidIsCoherent();
      args.pool.host.Free(a);
      NoticeFree(a);
    }

    ghost predicate Holds(ws: seq<Bytes>)
      reads this, Repr
    {
      Valid() && Sees(ws)
    }

    /** Whoever reads args->nelts learns the number of words. */
    method Count(ghost ws: seq<Bytes>) returns (n: nat)
      requires Holds(ws)
      ensures n == |ws| && Valid()
    {
      n := args.nelts;
    }

    /** The words as a handler reads them through args->elts. */
    method Read(ghost ws: seq<Bytes>) returns (words: seq<Bytes>)
      requires Holds(ws)
      ensures words == ws && Valid()
    {
      hide Inv, Window, Foreign, ArgsOk, ArrOk, StrBytes;
      var mem := args.pool.host.mem;
      words := [];
      var i := 0;
      while i < args.nelts
        invariant i <= args.nelts && words == ws[..i]
      {
        var e := args.elts + STR_SIZE * i;
        assert Words(mem, args.Rec())[i] == StrBytes(mem, e);
        words := words + [StrBytes(mem, e)];
        i := i + 1;
      }
      assert ws[..i] == ws;
    }

    ghost function Footprint(): set<object>
      reads this, args.pool
    {
      {this, args, args.pool, args.pool.host} + (set b | b in args.pool.chain) + (set l | l in args.pool.list)
    }

    constructor (args: Array)
      requires args.Valid() && args.size == STR_SIZE
      ensures Valid() && this.args == args && others == Foreign(args.pool.sys)
      ensures Repr == {this, args, args.pool, args.pool.host}
                      + (set b | b in args.pool.chain) + (set l | l in args.pool.list)
    {
      this.args, ranges, others := args, [], Foreign(args.pool.sys);
      Repr := {this, args, args.pool, args.pool.host} + (set b | b in args.pool.chain) + (set l | l in args.pool.list);
    }

    /** cf->args->nelts = 0 at the start of every token. */
    method Reset()
      requires Valid()
      modifies Repr
      ensures Holds([]) && Repr == old(Repr) && others == old(others)
      ensures args.pool.sys == old(args.pool.sys)
      ensures args.pool.host.mem == old(args.pool.host.mem) && args.pool.host.refused == old(args.pool.host.refused)
    {
      hide Inv, Window, Foreign;
      args.nelts := 0;
      ranges := [];
    }

    /** The list holds these words, if any are to be kept. */
    ghost predicate MayHold(ws: Option<seq<Bytes>>)
      reads this, Repr
    {
      Valid() && (ws.Some? ==> Sees(ws.value))
    }

    /** What TakeOne does to the pool. */
    method Ask(rq: Request, ghost ws: Option<seq<Bytes>>) returns (p: int, ghost g: Grants)
      requires Sound() && (ws.Some? ==> Sees(ws.value))
      modifies args.pool, args.pool.host, args.pool.chain, args.pool.list
      ensures Sound() && (ws.Some? ==> Sees(ws.value)) && args.pool.Grows()
      ensures Chained(old(args.pool.sys).pool) && Gets(old(args.pool.sys), old(args.pool.host.mem), rq, p, g)
      ensures args.pool.host.refused >= old(args.pool.host.refused)
      ensures p == 0 <==> args.pool.host.refused > old(args.pool.host.refused)
    {
      hide Inv, Window, Foreign, ArgsOk, Words, LegalGrants, PoolModel.Palloc, ArrOk, Store, SameShape;
      hide PoolImpl.Pool.Shape, Request.Size, Request.Aligned, Request.Writes;
      ghost var s, mem, a := args.pool.sys, args.pool.host.mem, args.Rec();
      ArrKnown(s, a);
      p, g := Serve(args.pool, rq);
      PallocSafe(s, rq.Size(), rq.Aligned(), g);
      PallocConserves(s, rq.Size(), rq.Aligned(), g);
      if p != 0 {
        ArrKept(s, args.pool.sys, a);
        if ws.Some? {
          WordsStay(s, mem, a, ranges, args.pool.sys, rq.Writes());
        }
      }
    }

    /** The pool and its memory are now what one request makes of s and mem. */
    ghost predicate Gets(s: Sys, mem: Mem, rq: Request, p: int, g: Grants)
      requires Chained(s.pool)
      reads args.pool, args.pool.host
    {
      && LegalGrants(s, rq.Size(), g) && (args.pool.sys, p) == PoolModel.Palloc(s, rq.Size(), rq.Aligned(), g)
      && args.pool.host.mem == if p == 0 then mem else Store(mem, p, rq.Writes())
    }

    /** One request of a handler to the pool. The words stay what they are. */
    method TakeOne(rq: Request, ghost ws: Option<seq<Bytes>>) returns (p: int, ghost g: Grants)
      requires MayHold(ws)
      modifies Repr
      ensures MayHold(ws) && fresh(Repr - old(Repr)) && others == old(others)
      ensures Chained(old(args.pool.sys).pool) && Gets(old(args.pool.sys), old(args.pool.host.mem), rq, p, g)
      ensures args.pool.host.refused >= old(args.pool.host.refused)
      ensures p == 0 <==> args.pool.host.refused > old(args.pool.host.refused)
    {
      hide Inv, Window, Foreign, ArgsOk, Words, ArrOk, PoolImpl.Pool.Shape, ArgList.Gets;
      p, g := Ask(rq, ws);
      Repr := Repr + Footprint();
    }

    /** The pool and its memory are now what these requests make of s and mem, with these answers of the host. */
    ghost predicate Asked(s: Sys, mem: Mem, rs: seq<Request>, gs: seq<Grants>, at: seq<int>)
      reads args.pool, args.pool.host
    {
      Progress(s, mem, rs, gs, args.pool.sys, args.pool.host.mem, at)
    }

    /**
      The requests of one handler, in turn; it gives up at the first that fails. The pool is what
      the model makes of them.
     */
    method Take(rs: seq<Request>, ghost ws: Option<seq<Bytes>>)
      returns (ok: bool, ghost gs: seq<Grants>, ghost at: seq<int>)
      requires MayHold(ws)
      modifies Repr
      ensures MayHold(ws) && fresh(Repr - old(Repr)) && others == old(others)
      ensures Asked(old(args.pool.sys), old(args.pool.host.mem), rs, gs, at)
      ensures |at| <= |rs| && (ok <==> |at| == |rs|)
      ensures args.pool.host.refused >= old(args.pool.host.refused)
      ensures !ok <==> args.pool.host.refused > old(args.pool.host.refused)
    {
      hide MayHold, LegalGrants, PoolModel.Palloc, Store, Progress, Request.Size, Request.Aligned, Request.Writes;
      ghost var s, mem := args.pool.sys, args.pool.host.mem;
      ok, gs, at := true, [], [];
      ListIsChained(ws);
      NoAnswers(s, mem, rs);
      var i := 0;
      while i < |rs| && ok
        invariant i <= |rs| && |gs| == i && (ok ==> |at| == i) && (!ok ==> |at| < |rs|)
        invariant MayHold(ws) && fresh(Repr - old(Repr)) && others == old(others)
        invariant Asked(s, mem, rs, gs, at)
        invariant args.pool.host.refused >= old(args.pool.host.refused)
        invariant ok <==> args.pool.host.refused == old(args.pool.host.refused)
      {
        ghost var t, mem1 := args.pool.sys, args.pool.host.mem;
        var p;
        ghost var g;
        p, g := TakeOne(rs[i], ws);
        ProgressOne(s, mem, rs, gs, t, mem1, at, g);
        ok, gs, at, i := p != 0, gs + [g], if p != 0 then at + [p] else at, i + 1;
      }
    }

    /** Requests that nobody has made yet. */
    lemma NothingAsked(ws: Option<seq<Bytes>>, rs: seq<Request>)
      requires MayHold(ws)
      ensures Asked(args.pool.sys, args.pool.host.mem, rs, [], [])
    {
      hide MayHold;
      ListIsChained(ws);
      NoAnswers(args.pool.sys, args.pool.host.mem, rs);
    }

    lemma ListIsChained(ws: Option<seq<Bytes>>)
      requires MayHold(ws)
      ensures Chained(args.pool.sys.pool)
    {
      hide Window, Foreign, PoolImpl.Pool.Shape;
      SizeKnown(args.pool.sys);
    }

    /** A word has ended at `end`: it becomes the last argument, unless memory runs out. */
    method PushWord(buf: array<byte>, start: nat, end: nat, ghost ws: seq<Bytes>) returns (ok: bool)
      requires Holds(ws)
      requires start <= end <= buf.Length && Paired(buf[start..end])
      modifies Repr
      ensures Valid() && fresh(Repr - old(Repr)) && others == old(others)
      ensures args.pool.host.refused >= old(args.pool.host.refused)
      ensures !ok <==> args.pool.host.refused > old(args.pool.host.refused)
      ensures ok ==> Holds(ws + [Unescape(buf[start..end])])
    {
      hide Inv, Window, Foreign, ArgsOk, Words, Unescape, Paired, ArrOk, PoolImpl.Pool.Shape;
      ok := AddWord(buf, start, end, ws);
      Repr := Repr + Footprint();
    }

    /** One turn of the escape loop: the byte it writes and how far it moves. */
    method DecodeOne(buf: array<byte>, src: nat, ghost end: nat) returns (ch: byte, step: nat)
      requires src < end <= buf.Length && Paired(buf[src..end])
      ensures 1 <= step && src + step <= end && Paired(buf[src + step..end])
      ensures Unescape(buf[src..end]) == [ch] + Unescape(buf[src + step..end])
    {
      ghost var w := buf[src..end];
      assert w[1..] == buf[src + 1..end];
      ch, step := buf[src], 1;
      if ch == BACKSLASH {
        assert w[2..] == buf[src + 2..end];
        var c := buf[src + 1];
        assert c == w[1];
        if c == DQUOTE || c == SQUOTE || c == BACKSLASH {
          ch, step := c, 2;
        } else if c == LOWER_T {
          ch, step := TAB, 2;
        } else if c == LOWER_R {
          ch, step := CR, 2;
        } else if c == LOWER_N {
          ch, step := LF, 2;
        } else {
          UnknownPair(w);
        }
      }
    }

    /**
      The escape loop of cw_conf_read_token. It stops exactly at the end of the word, writes
      what the decoder that takes whole pairs yields, a NUL behind it, and counts its bytes.
     */
    method Decode(buf: array<byte>, start: nat, end: nat, data: int) returns (len: nat)
      requires start <= end <= buf.Length && Paired(buf[start..end])
      modifies args.pool.host`mem
      ensures len == |Unescape(buf[start..end])| <= end - start
      ensures args.pool.host.mem == Store(old(args.pool.host.mem), data, Unescape(buf[start..end]) + [NUL])
    {
      hide Paired, Unescape, Store;
      var host := args.pool.host;
      var dst, src := data, start;
      len := 0;
      ghost var done: Bytes := [];
      ghost var all := Unescape(buf[start..end]);
      assert Store(host.mem, data, []) == host.mem by { StoreNil(host.mem, data); }
      while src < end
        invariant start <= src <= end && dst == data + |done| && len == |done| <= src - start
        invariant Paired(buf[src..end]) && done + Unescape(buf[src..end]) == all
        invariant host.mem == Store(old(host.mem), data, done)
      {
        var ch, step := DecodeOne(buf, src, end);
        assert dst < data + (end - start);   // inside the room cw_pnalloc gave
        StoreSnoc(old(host.mem), data, done, ch);
        host.mem := host.mem[dst := ch];
        assert done + ([ch] + Unescape(buf[src + step..end])) == done + [ch] + Unescape(buf[src + step..end]);
        done := done + [ch];
        dst, src, len := dst + 1, src + step, len + 1;
      }
      assert done == all;
      StoreSnoc(old(host.mem), data, done, NUL);
      host.mem := host.mem[dst := NUL];
    }

    /**
      A word has ended: a slot from the array, room from the pool, its address, the decoded bytes,
      the length. Unless memory runs out, a reader then sees the old words and the new one behind
      them, although the array may have moved and both live in one pool.
     */
    method AddWord(buf: array<byte>, start: nat, end: nat, ghost ws: seq<Bytes>) returns (ok: bool)
      requires Sound() && Sees(ws)
      requires start <= end <= buf.Length && Paired(buf[start..end])
      modifies this`ranges, args, args.pool, args.pool.host, args.pool.chain, args.pool.list
      ensures Sound() && args.pool.Grows()
      ensures args.pool.host.refused >= old(args.pool.host.refused)
      ensures !ok <==> args.pool.host.refused > old(args.pool.host.refused)
      ensures ok ==> Sees(ws + [Unescape(buf[start..end])])
    {
      hide PoolImpl.Pool.Shape, Inv, Window, Foreign, ArgsOk, Words, Paired, Unescape, LegalGrants;
      hide PoolModel.Palloc, ArrayModel.Push,
        Copied, Room, GrowOk, ArrOk, Store;
      ghost var s, mem, a := args.pool.sys, args.pool.host.mem, args.Rec();
      ArrKnown(s, a);
      var elt, g := args.Push();
      ghost var p := ArrayModel.Push(s, a, g);
      PushIsOk(s, a, g);
      PushConserves(s, a, g);
      if elt == 0 {
        return false;
      }
      var pool := args.pool;
      assert forall i :: 0 <= i < |pool.chain| ==> pool.chain[i] in old(pool.chain) || fresh(pool.chain[i]);
      assert forall k :: 0 <= k < |pool.list| ==> pool.list[k] in old(pool.list) || fresh(pool.list[k]);
      GrowKnown(s, a, p);
      ok := WriteWord(elt, buf, start, end, ws, s, mem, a, p);
    }

    /** The part of the word's end behind cw_array_push. */
    method WriteWord(elt: int, buf: array<byte>, start: nat, end: nat, ghost ws: seq<Bytes>,
                     ghost s: Sys, ghost mem: Mem, ghost a: Arr, ghost p: Pushed) returns (ok: bool)
      requires Sound() && start <= end <= buf.Length && Paired(buf[start..end])
      requires a.range < |s.live| && ArrOk(s, a) && ArgsOk(s, mem, a, ranges) && Words(mem, a) == ws
      requires GrowOk(s, a, 1, p)
      requires elt == p.elt != 0 && args.pool.sys == p.sys && args.Rec() == p.arr
      requires args.pool.host.mem == Copied(mem, a, p)
      modifies this`ranges, args.pool, args.pool.host, args.pool.chain, args.pool.list
      ensures Sound() && args.pool.Grows() && args.Rec() == p.arr
      ensures args.pool.host.refused >= old(args.pool.host.refused)
      ensures !ok <==> args.pool.host.refused > old(args.pool.host.refused)
      ensures ok ==> Sees(ws + [Unescape(buf[start..end])])
    {
      hide PoolImpl.Pool.Shape, Inv, Window, Foreign, ArgsOk, Words, Paired, Unescape, LegalGrants;
      hide PoolModel.Palloc, Copied, Room,
        GrowOk, ArrOk, Store, SameShape;
      var n := end - start + 1;
      SizeKnown(p.sys);
      var data, g := args.pool.Palloc(n, false);
      PallocSafe(p.sys, n, false, g);
      PallocConserves(p.sys, n, false, g);
      ArrKept(p.sys, args.pool.sys, p.arr);
      if data == 0 {
        return false;
      }
      WriteBytes(elt, data, buf, start, end, ws, s, mem, a, p);
      ok := true;
    }

    /** The writes: the address, the decoded bytes, the length. */
    method WriteBytes(elt: int, data: int, buf: array<byte>, start: nat, end: nat, ghost ws: seq<Bytes>,
                      ghost s: Sys, ghost mem: Mem, ghost a: Arr, ghost p: Pushed)
      requires start <= end <= buf.Length && Paired(buf[start..end])
      requires a.range < |s.live| && ArrOk(s, a) && ArgsOk(s, mem, a, ranges) && Words(mem, a) == ws
      requires GrowOk(s, a, 1, p)
      requires elt == p.elt != 0 && args.Rec() == p.arr && args.pool.host.mem == Copied(mem, a, p)
      requires WordRange(p.sys, args.pool.sys, data, end - start + 1)
      modifies this`ranges, args.pool.host`mem
      ensures Sees(ws + [Unescape(buf[start..end])])
    {
      hide Inv, Foreign, ArgsOk, Words, Paired, Unescape, Copied, Room, GrowOk, ArrOk, Store, LittleEndian;
      ghost var t := args.pool.sys;
      DataInSpace(t);
      var host := args.pool.host;
      host.mem := Store(host.mem, elt + 8, LittleEndian(data, 8));
      var len := Decode(buf, start, end, data);
      host.mem := Store(host.mem, elt, LittleEndian(len, 8));
      WordPushed(s, mem, a, ranges, p, t, data, end - start + 1, Unescape(buf[start..end]));
      ranges := ranges + [|t.live| - 1];
    }
  }

  lemma GrantIsNew(s: Sys, a: int, n: nat)
    requires Inv(s) && FreshRange(s.host, a, n)
    ensures HostOk(s.host[a := n]) && Spared(s, s.host[a := n]) && a !in s.host
  {
    hide Geometry, Owning, LiveOk, RecordsHeld;
    HostGrows(s.host, a, n);
  }

  lemma FreeIsSpared(s: Sys, a: int)
    requires Inv(s) && a in Foreign(s)
    ensures HostOk(s.host - {a}) && Spared(s, s.host - {a})
  {
    hide Geometry, Owning, LiveOk, RecordsHeld;
  }

  lemma ArrKnown(s: Sys, a: Arr)
    requires Inv(s) && ArrOk(s, a)
    ensures Chained(s.pool) && a.range < |s.live|
  {
  }

  lemma PushConserves(s: Sys, a: Arr, g: Grants)
    requires Chained(s.pool) && a.range < |s.live| && LegalGrants(s, Room(a.size, 2 * a.nalloc), g)
    ensures Foreign(ArrayModel.Push(s, a, g).sys) == Foreign(s)
  {
    hide Grow, Foreign, LegalGrants, Room;
    if a.nelts == a.nalloc {
      PoolRuns.GrowConserves(s, a, 1, 2 * a.nalloc, g);
    }
  }

  lemma GrowKnown(s: Sys, a: Arr, p: Pushed)
    requires a.range < |s.live| && GrowOk(s, a, 1, p) && p.elt != 0
    ensures p.arr.size == a.size
  {
  }

  lemma DataInSpace(t: Sys)
    requires Inv(t) && t.live != []
    ensures var r := t.live[|t.live| - 1]; 0 < r.addr && r.addr + r.size <= TOP
  {
    var r := t.live[|t.live| - 1];
    assert Housed(t, r);
    var b := HousedInHost(t, r);
  }

  lemma StoreNil(mem: Mem, a: int)
    ensures Store(mem, a, []) == mem
  {
  }

  /** An unknown pair is decoded byte by byte: what follows the backslash starts no pair. */
  lemma UnknownPair(w: Bytes)
    requires |w| >= 2 && w[0] == BACKSLASH && |Meaning(w[1])| == 2 && Paired(w)
    ensures Paired(w[1..]) && Unescape(w) == [BACKSLASH] + Unescape(w[1..])
  {
    assert w[1..][1..] == w[2..];
    assert [BACKSLASH, w[1]] + Unescape(w[2..]) == [BACKSLASH] + ([w[1]] + Unescape(w[2..]));
  }
}
