/**
  cw_conf_parse and cw_conf_param: the loop over tokens, the handlers and their recursion through
  blocks, opening and closing the file.
 */
module ConfDriver {
  import opened Bytes
  import opened ConfScan
  import opened ConfGrammar
  import opened ConfDispatch
  import opened ConfReader
  import opened ConfArgs
  import opened Files
  import PoolModel
  import opened PoolRequests

  const CONF_BUFFER: nat := 4096

  /**
    What is configured, over any type of configuration: the module tables; module_type, cmd_type
    and ctx; what a command's setter does, given its third argument; whether cf->handler is set
    and what it does; what is left to do for a handler that has parsed a block; and the memory
    a handler takes from the pool, before it answers and after its block.
   */
  datatype Directives<!St> = Directives(
    mods: seq<Module>,
    contextOf: St -> Context,
    setter: (St, nat, nat, ConfArg, Args) -> Reply<St>,
    custom: St -> bool,
    customTakes: (St, Args) -> Reply<St>,
    leave: (St, Args, bool, St) -> Option<St>,
    asks: (St, Args, bool) -> seq<Request>,
    asksLater: (St, Args, bool, St) -> seq<Request>)
  {
    /** (m, c) is the first command that applies, and terminator and arity are right for it. */
    ghost predicate Chosen(st: St, args: Args, block: bool, m: nat, c: nat)
      requires args != []
    {
      && FirstApplying(mods, args[0], contextOf(st), m, c)
      && Judge(mods[m], mods[m].commands[c], m, c, contextOf(st), |args|, block).Call?
    }

    /** The setter of the chosen command answers; without one, the directive is refused. */
    ghost function TakeCommand(st: St, args: Args, block: bool): Reply<St> {
      if args != [] && exists m: nat, c: nat :: Chosen(st, args, block, m, c) then
        var m: nat, c: nat :| Chosen(st, args, block, m, c);
        setter(st, m, c, ConfOf(mods[m], mods[m].commands[c], contextOf(st)), args)
      else Refuse
    }

    ghost function AsHandlers(): (h: Handlers<St>)
      ensures h.leave == leave
    {
      Handlers(
        custom, (st, args, block) => if custom(st) then customTakes(st, args) else TakeCommand(st, args, block), leave)
    }

    /** There is at most one chosen command, and its setter answers. */
    lemma TakesChosen(st: St, args: Args, block: bool, m: nat, c: nat)
      requires args != [] && Chosen(st, args, block, m, c)
      ensures TakeCommand(st, args, block)
           == setter(st, m, c, ConfOf(mods[m], mods[m].commands[c], contextOf(st)), args)
    {
      hide Applies, Judge;
      OnlyOneFirst(mods, args[0], contextOf(st), m, c);
    }

    /** cw_conf_handler as far as the call of cmd->set, and the answer of that call. */
    lemma TakesByVerdict(st: St, args: Args, block: bool, v: Verdict)
      requires args != []
      requires forall m: nat, c: nat :: FirstApplying(mods, args[0], contextOf(st), m, c) ==>
                 v == Judge(mods[m], mods[m].commands[c], m, c, contextOf(st), |args|, block)
      requires NoneApplies(mods, args[0], contextOf(st)) ==> !v.Call?
      requires (exists m: nat, c: nat :: FirstApplying(mods, args[0], contextOf(st), m, c))
            || NoneApplies(mods, args[0], contextOf(st))
      ensures TakeCommand(st, args, block) == if v.Call? then setter(st, v.m, v.c, v.conf, args) else Refuse
    {
      hide Applies;
      if m: nat, c: nat :| FirstApplying(mods, args[0], contextOf(st), m, c) {
        OnlyOneFirst(mods, args[0], contextOf(st), m, c);
        if v.Call? {
          assert Chosen(st, args, block, m, c);
        }
      }
    }
  }

  // ---------------------------------------------------------------- a custom handler

  /** The custom handler, given every directive in turn; None if it refuses one, or if there is a brace or an error. */
  function Folded<St>(takes: (St, Args) -> Reply<St>, st: St, ts: seq<Tok>): Option<St>
    decreases |ts|
  {
    if ts == [] then None
    else if ts[0].code == FileDone then Some(st)
    else if ts[0].code != Ok then None
    else
      var r := takes(st, ts[0].args);
      if r.Done? then Folded(takes, r.st, ts[1..]) else None
  }

  lemma {:induction false} WalkFolds<St(!new)>(d: Directives<St>, inFile: bool, st: St, ts: seq<Tok>)
    requires (forall s :: d.custom(s)) && forall s, args :: !d.customTakes(s, args).Enter?
    requires forall k :: 0 <= k < |ts| - 1 ==> !ts[k].code.Error? && !ts[k].code.FileDone?
    ensures Walk(d.AsHandlers(), inFile, [], st, ts) == Folded(d.customTakes, st, ts)
    decreases |ts|
  {
    hide Directives.TakeCommand;
    if ts != [] && ts[0].code == Ok {
      var r := d.customTakes(st, ts[0].args);
      assert d.custom(st) && React(d.AsHandlers(), st, ts[0].args, false) == r;
      if r.Done? {
        WalkFolds(d, inFile, r.st, ts[1..]);
      }
    } else if ts != [] && ts[0].code == BlockStart {
      assert d.custom(st) && React(d.AsHandlers(), st, ts[0].args, true) == Refuse;
    }
  }

  /**
    While a custom handler is in place it alone decides, directive by directive, whatever the tables
    hold, and no text with a brace is accepted.
   */
  lemma CustomDecides<St(!new)>(d: Directives<St>, src: Source, mode: Mode, st: St, line: nat, data: Bytes)
    requires (forall s :: d.custom(s)) && forall s, args :: !d.customTakes(s, args).Enter?
    requires mode != InBlock
    ensures var p := ParseFrom(d.AsHandlers(), src, mode, st, line, data);
            Folded(d.customTakes, st, Tokens(src, line, data)) == if p.Parsed? then Some(p.st) else None
  {
    hide Walk, Folded;
    ParseIsWalk(d.AsHandlers(), src, mode, st, line, data);
    TokensShape(src, line, data);
    WalkFolds(d, mode == InFile, st, Tokens(src, line, data));
  }

  // ---------------------------------------------------------------- one token of the driver

  lemma ParseDirective<St>(h: Handlers<St>, src: Source, mode: Mode, st: St, line: nat, rest: Bytes, t: Token)
    requires t == NextToken(src, line, rest) && (t.code == Ok || t.code == BlockStart)
    ensures ParseFrom(h, src, mode, st, line, rest)
         == if mode == InParam && t.code == BlockStart then Rejected
            else Behind(h, src, mode, st, t.args, t.code == BlockStart, t.line, t.rest)
    ensures |t.rest| < |rest|
  {
    hide NextToken, Behind;
  }

  lemma ParseEnd<St>(h: Handlers<St>, src: Source, mode: Mode, st: St, line: nat, rest: Bytes, t: Token)
    requires t == NextToken(src, line, rest) && t.code != Ok && t.code != BlockStart
    ensures ParseFrom(h, src, mode, st, line, rest)
         == if (t.code == BlockDone && mode == InBlock) || (t.code == FileDone && mode != InBlock)
            then Parsed([], st, t.line, t.rest) else Rejected
  {
    hide NextToken, Behind;
  }

  lemma PrependTwice<St>(a: seq<Node>, b: seq<Node>, p: Parse<St>)
    ensures Prepend(a, Prepend(b, p)) == Prepend(a + b, p)
    ensures Prepend([], p) == p
  {
    if p.Parsed? {
      assert a + (b + p.nodes) == a + b + p.nodes;
      assert [] + p.nodes == p.nodes;
    }
  }

  lemma PrependNothing<St>(nodes: seq<Node>, st: St, line: nat, rest: Bytes)
    ensures Prepend<St>(nodes, Rejected) == Rejected
    ensures Prepend(nodes, Parsed([], st, line, rest)) == Parsed(nodes, st, line, rest)
  {
    assert nodes + [] == nodes;
  }

  /** A directive refused, or its handler done: the two cases without a block. */
  lemma BehindDone<St>(
      h: Handlers<St>, src: Source, mode: Mode, st: St, args: Args, block: bool, line: nat, rest: Bytes)
    ensures var r := React(h, st, args, block);
            var p := Behind(h, src, mode, st, args, block, line, rest);
            && (r.Refuse? ==> p == Rejected)
            && (r.Done? ==> p == Prepend([Leaf(args, block)], ParseFrom(h, src, mode, r.st, line, rest)))
  {
    hide ParseFrom, React;
  }

  /** What a handler leaves that parses a block first: None if the block or the handler fails. */
  ghost function AfterBlock<St>(h: Handlers<St>, st: St, args: Args, block: bool, inner: Parse<St>): Option<St> {
    if inner.Rejected? then None else h.leave(st, args, block, inner.st)
  }

  lemma BehindEnter<St>(
      h: Handlers<St>, src: Source, mode: Mode, st: St, args: Args, block: bool, line: nat, rest: Bytes)
    requires React(h, st, args, block).Enter?
    ensures var inner := ParseFrom(h, src, Inner(mode), React(h, st, args, block).st, line, rest);
            var after := AfterBlock(h, st, args, block, inner);
            var p := Behind(h, src, mode, st, args, block, line, rest);
            if after.None? then p == Rejected
            else
              p == Prepend([Nest(args, block, inner.nodes)],
                           ParseFrom(h, src, mode, after.value, inner.line, inner.rest))
  {
    hide ParseFrom, React;
  }

  // ---------------------------------------------------------------- the driver

  class Conf<St> {
    const list: ArgList
    const dirs: Directives<St>
    var st: St               // the configuration, cf itself included
    var confFile: Reader?

    constructor (list: ArgList, dirs: Directives<St>, st: St)
      ensures this.list == list && this.dirs == dirs && this.st == st && confFile == null
    {
      this.list, this.dirs, this.st, confFile := list, dirs, st, null;
    }

    /** How often the host has refused the pool of the arguments. */
    ghost function Refused(): nat
      reads list.args.pool.host
    {
      list.args.pool.host.refused
    }

    ghost predicate Ready(r: Reader)
      reads this, r, r.file, list, list.Repr
    {
      && Tables(dirs.mods)
      && r.Valid() && list.Valid() && r.Apart(list) && this !in list.Repr
    }

    /** The custom handler, or cw_conf_handler and the setter of a command, up to the answer. */
    method Answer(r: Reader, args: Args, block: bool)
      returns (reply: Reply<St>, ghost fault: bool, ghost gs: seq<PoolModel.Grants>, ghost at: seq<int>)
      requires Ready(r) && args != [] && list.Holds(args)
      modifies list.Repr
      ensures Ready(r) && fresh(list.Repr - old(list.Repr)) && list.others == old(list.others)
      ensures r.Rest() == old(r.Rest()) && r.Param() == old(r.Param())
      ensures r.Troubles(list) >= old(r.Troubles(list))
      ensures if fault then reply == Refuse && r.Troubles(list) > old(r.Troubles(list))
              else reply == React(dirs.AsHandlers(), st, args, block) && r.Troubles(list) == old(r.Troubles(list))
      ensures var rs := dirs.asks(st, args, block);
              && list.Asked(old(list.args.pool.sys), old(list.args.pool.host.mem), rs, gs, at)
              && (!reply.Refuse? ==> |at| == |rs|) && (fault ==> |at| < |rs|)
    {
      hide FirstApplying, NoneApplies, NamedSomewhere, Judge, Directives.TakeCommand, Tables;
      hide ArgList.Valid, ArgList.Sees, Progress;
      fault, gs, at := false, [], [];
      reply := Refuse;
      list.NothingAsked(Some(args), dirs.asks(st, args, block));
      if dirs.custom(st) {
        if block {
          return;
        }
        reply := dirs.customTakes(st, args);
      } else {
        var v := Handle(dirs.mods, dirs.contextOf(st), args, block);
        dirs.TakesByVerdict(st, args, block, v);
        if !v.Call? {
          return;
        }
        reply := dirs.setter(st, v.m, v.c, v.conf, args);
      }
      var ok;
      ok, gs, at := list.Take(dirs.asks(st, args, block), Some(args));
      if !ok {
        reply, fault := Refuse, true;
      }
    }

    /** One turn of the loop of cw_conf_parse, up to the call of a handler. `more` says that there is a directive. */
    method NextDirective(r: Reader, mode: Mode)
      returns (more: bool, ok: bool, args: Args, block: bool, ghost fault: bool)
      requires Ready(r)
      modifies r`pos, r`last, r`line, r.buf, r.file, list.Repr
      ensures Ready(r) && fresh(list.Repr - old(list.Repr)) && |r.Rest()| <= |old(r.Rest())|
      ensures list.others == old(list.others) && r.Param() == old(r.Param())
      ensures r.Troubles(list) >= old(r.Troubles(list)) && (fault <==> r.Troubles(list) > old(r.Troubles(list)))
      ensures var h := dirs.AsHandlers();
              var p := ParseFrom(h, r.Src(), mode, st, old(r.line), old(r.Rest()));
              if more then
                && !fault && args != [] && list.Holds(args) && |r.Rest()| < |old(r.Rest())|
                && p == Behind(h, r.Src(), mode, st, args, block, r.line, r.Rest())
              else if fault then !ok
              else p == if ok then Parsed([], st, r.line, r.Rest()) else Rejected
    {
      hide NextToken, ParseFrom, Behind, Directives.AsHandlers, ArgList.Valid, ArgList.Holds;
      hide Reader.Valid, Reader.Rest, Reader.Src, Reader.Troubles, Reader.Param, Tables;
      ghost var h, src, line, rest := dirs.AsHandlers(), r.Src(), r.line, r.Rest();
      more, ok, args, block, fault := false, false, [], false, false;
      var code, t := r.ReadToken(list);
      if code.Error? {
        fault := code == Error(NoMemory) || code == Error(ReadFailed);
        if !fault {
          ParseEnd(h, src, mode, st, line, rest, t);
        }
        return;
      }
      if code == BlockDone || code == FileDone {
        ParseEnd(h, src, mode, st, line, rest, t);
        ok := (code == BlockDone) == (mode == InBlock);
        return;
      }
      ParseDirective(h, src, mode, st, line, rest, t);
      block := code == BlockStart;
      if block && mode == InParam {
        return;
      }
      TokenContract(src, line, rest);
      args := list.Read(t.args);
      more := true;
    }

    /**
      One directive: its handler, which may call cw_conf_parse(cf, NULL) and go on after that. What
      is left to parse then is what the recursive parse has left to parse.
     */
    method RunHandler(r: Reader, mode: Mode, args: Args, block: bool)
      returns (ok: bool, ghost node: Node, ghost fault: bool)
      requires Ready(r) && args != [] && list.Holds(args)
      modifies this`st, r`pos, r`last, r`line, r.buf, r.file, list.Repr
      ensures Ready(r) && fresh(list.Repr - old(list.Repr)) && |r.Rest()| <= |old(r.Rest())|
      ensures list.others == old(list.others) && r.Param() == old(r.Param())
      ensures r.Troubles(list) >= old(r.Troubles(list)) && (fault <==> r.Troubles(list) > old(r.Troubles(list)))
      ensures var h := dirs.AsHandlers();
              var p := Behind(h, r.Src(), mode, old(st), args, block, old(r.line), old(r.Rest()));
              if fault then !ok
              else p == if ok then Prepend([node], ParseFrom(h, r.Src(), mode, st, r.line, r.Rest())) else Rejected
      decreases |r.Rest()|, 1
    {
      hide ParseFrom, Behind, React, Directives.AsHandlers, ArgList.Valid, ArgList.Holds;
      hide ArgList.Asked;
      hide Reader.Valid, Reader.Rest, Reader.Src, Reader.Troubles, Reader.Param, Tables;
      ghost var h, src, line, rest := dirs.AsHandlers(), r.Src(), r.line, r.Rest();
      var st0 := st;
      node := Leaf(args, block);
      var reply;
      ghost var gs, at;
      reply, fault, gs, at := Answer(r, args, block);
      ok := !reply.Refuse?;
      if !ok {
        BehindDone(h, src, mode, st0, args, block, line, rest);
        return;
      }
      st := reply.st;
      if reply.Done? {
        BehindDone(h, src, mode, st0, args, block, line, rest);
        return;
      }
      ghost var inner;
      ok, inner, fault := ParseTokens(r, Inner(mode));
      BehindEnter(h, src, mode, st0, args, block, line, rest);
      if ok {
        node := Nest(args, block, inner.nodes);
        ok, fault, gs, at := Leave(r, st0, args, block);
      }
    }

    /** The rest of a handler that has parsed a block. */
    method Leave(r: Reader, st0: St, args: Args, block: bool)
      returns (ok: bool, ghost fault: bool, ghost gs: seq<PoolModel.Grants>, ghost at: seq<int>)
      requires Ready(r)
      modifies this`st, list.Repr
      ensures Ready(r) && fresh(list.Repr - old(list.Repr)) && r.Rest() == old(r.Rest())
      ensures list.others == old(list.others) && r.Param() == old(r.Param())
      ensures r.Troubles(list) >= old(r.Troubles(list)) && (fault <==> r.Troubles(list) > old(r.Troubles(list)))
      ensures if fault then !ok
              else dirs.leave(st0, args, block, old(st)) == if ok then Some(st) else None
      ensures var rs := dirs.asksLater(st0, args, block, old(st));
              && list.Asked(old(list.args.pool.sys), old(list.args.pool.host.mem), rs, gs, at)
              && (fault <==> |at| < |rs|)
    {
      hide ArgList.Valid, Reader.Valid, Reader.Rest, Reader.Param, Tables;
      ok, gs, at := list.Take(dirs.asksLater(st0, args, block, st), None);
      fault := !ok;
      if ok {
        var after := dirs.leave(st0, args, block, st);
        ok := after.Some?;
        if ok {
          st := after.value;
        }
      }
    }

    /**
      The loop of cw_conf_parse. Unless memory or the file fails, it ends with the outcome, the
      configuration, the line and the unread bytes of the recursive parse.
     */
    method ParseTokens(r: Reader, mode: Mode) returns (ok: bool, ghost p: Parse<St>, ghost fault: bool)
      requires Ready(r)
      modifies this`st, r`pos, r`last, r`line, r.buf, r.file, list.Repr
      ensures Ready(r) && fresh(list.Repr - old(list.Repr)) && |r.Rest()| <= |old(r.Rest())|
      ensures list.others == old(list.others) && r.Param() == old(r.Param())
      ensures r.Troubles(list) >= old(r.Troubles(list)) && (fault <==> r.Troubles(list) > old(r.Troubles(list)))
      ensures p == ParseFrom(dirs.AsHandlers(), r.Src(), mode, old(st), old(r.line), old(r.Rest()))
      ensures if fault then !ok
              else ok == p.Parsed? && (ok ==> st == p.st && r.line == p.line && r.Rest() == p.rest)
      decreases |r.Rest()|, 0
    {
      hide ParseFrom, Behind, Directives.AsHandlers, ArgList.Valid, ArgList.Holds;
      hide Reader.Valid, Reader.Rest, Reader.Src, Reader.Troubles, Reader.Param, Tables, Prepend;
      ghost var h, src := dirs.AsHandlers(), r.Src();
      p := ParseFrom(h, src, mode, st, r.line, r.Rest());
      ghost var nodes: seq<Node> := [];
      PrependTwice([], [], p);
      while true
        invariant Ready(r) && fresh(list.Repr - old(list.Repr)) && |r.Rest()| <= |old(r.Rest())|
        invariant list.others == old(list.others) && r.Param() == old(r.Param())
        invariant r.Troubles(list) == old(r.Troubles(list))
        invariant p == Prepend(nodes, ParseFrom(h, src, mode, st, r.line, r.Rest()))
        decreases |r.Rest()|
      {
        var more, args, block;
        more, ok, args, block, fault := NextDirective(r, mode);
        PrependNothing(nodes, st, r.line, r.Rest());
        if !more {
          return ok, p, fault;
        }
        ghost var node;
        ok, node, fault := RunHandler(r, mode, args, block);
        if !ok {
          return false, p, fault;
        }
        PrependTwice(nodes, [node], ParseFrom(h, src, mode, st, r.line, r.Rest()));
        nodes := nodes + [node];
      }
    }

    /**
      A file just opened: a buffer from the host that the pool uses too, the tokens, and the buffer
      back. Without a buffer nothing is read and the call fails.
     */
    method ParseBuffered(f: File) returns (ok: bool, ghost fault: bool, ghost buffer: int)
      requires Tables(dirs.mods) && list.Valid() && this !in list.Repr && f !in list.Repr
      requires f.InOrder() && f.offset == 0
      modifies this`confFile, this`st, f, list.Repr
      ensures list.Valid() && fresh(list.Repr - old(list.Repr)) && list.others == old(list.others)
      ensures f !in list.Repr && this !in list.Repr
      ensures buffer == 0 || PoolModel.FreshRange(old(list.args.pool.host.live), buffer, CONF_BUFFER)
      ensures buffer == 0 ==> fault && f.offset == 0 && f.failed == old(f.failed)
      ensures Refused() + f.failed >= old(Refused() + f.failed)
      ensures fault <==> Refused() + f.failed > old(Refused() + f.failed)
      ensures if fault then !ok
              else
                var p := ParseFrom(dirs.AsHandlers(), Source(Some(CONF_BUFFER), true), InFile, old(st), 1, f.data);
                ok == p.Parsed? && (ok ==> st == p.st)
    {
      hide ParseFrom, Directives.AsHandlers, ArgList.Valid, Reader.Rest, Reader.Valid, Reader.Param, Tables;
      hide PoolModel.FreshRange;
      ok, fault := false, true;
      var addr := list.AllocElsewhere(CONF_BUFFER);
      buffer := addr;
      if addr != 0 {
        var r := new Reader.OpenFile(f, addr, CONF_BUFFER);
        confFile := r;
        ghost var p;
        ok, p, fault := ParseTokens(r, InFile);
        list.FreeElsewhere(addr);
        assert list.others == old(list.others);
      }
    }

    /**
      cw_conf_parse with a file name. On every way out after a successful open the buffer is back
      with the host, the descriptor is closed and cf->conf_file is what it was. Unless the system
      or the host has failed, the outcome is that of the recursive parse over the whole file.
     */
    method ParseFile(os: Os, name: Bytes, hasPread: bool)
      returns (ok: bool, ghost fault: bool, ghost file: File?, ghost buffer: int)
      requires Tables(dirs.mods) && list.Valid() && this !in list.Repr && os !in list.Repr
      modifies this`confFile, this`st, os`fds, os`failed, list.Repr
      ensures confFile == old(confFile) && os.fds == old(os.fds) && list.others == old(list.others)
      ensures list.Valid() && fresh(list.Repr - old(list.Repr))
      ensures buffer == 0 || PoolModel.FreshRange(old(list.args.pool.host.live), buffer, CONF_BUFFER)
      ensures buffer == 0 ==> fault
      ensures if fault then !ok
              else
                && name in os.disk
                && var src := Source(Some(CONF_BUFFER), true);
                   var p := ParseFrom(dirs.AsHandlers(), src, InFile, old(st), 1, os.disk[name]);
                   ok == p.Parsed? && (ok ==> st == p.st)
      ensures file != null ==> fresh(file) && file !in list.Repr
      ensures os.failed + Refused() + FailedCalls(file) >= old(os.failed + Refused())
      ensures fault <==> os.failed + Refused() + FailedCalls(file) > old(os.failed + Refused())
    {
      hide ParseFrom, Directives.AsHandlers, ArgList.Valid, Tables, PoolModel.FreshRange;
      file, buffer := null, 0;
      var fd, f := os.Open(name, hasPread);
      if f == null {
        return false, true, null, 0;
      }
      file := f;
      var prev := confFile;
      ok, fault, buffer := ParseBuffered(f);
      var closed := os.Close(fd);
      if !closed {
        ok, fault := false, true;
      }
      confFile := prev;
    }

    /**
      cw_conf_param: an empty parameter is accepted without a look; the parameter has no limit, no
      block, and its bytes stay as they are.
     */
    method ParseParam(param: array<byte>) returns (ok: bool, ghost fault: bool)
      requires Tables(dirs.mods) && list.Valid() && this !in list.Repr && param !in list.Repr
      modifies this`confFile, this`st, param, list.Repr
      ensures confFile == (if param.Length == 0 then old(confFile) else null) && param[..] == old(param[..])
      ensures list.Valid() && fresh(list.Repr - old(list.Repr)) && list.others == old(list.others)
      ensures if fault then !ok
              else
                var p := ParseFrom(dirs.AsHandlers(), Source(None, false), InParam, old(st), 0, old(param[..]));
                ok == p.Parsed? && (ok ==> st == p.st)
      ensures Refused() >= old(Refused()) && (fault <==> Refused() > old(Refused()))
    {
      hide ParseFrom, Directives.AsHandlers, ArgList.Valid, Reader.Rest, Reader.Valid, Tables;
      if param.Length == 0 {
        NothingToParse(dirs.AsHandlers(), st);
        assert param[..] == [];
        return true, false;
      }
      var none := new File([], true, 0);
      var r := new Reader.OpenParam(param, none);
      confFile := r;
      ghost var p;
      ok, p, fault := ParseTokens(r, InParam);
      confFile := null;
    }
  }

  lemma NothingToParse<St>(h: Handlers<St>, st: St)
    ensures ParseFrom(h, Source(None, false), InParam, st, 0, []) == Parsed([], st, 0, [])
  {
  }

  /** Descriptors and files of the operating system. */
  class Os {
    const disk: map<Bytes, Bytes>
    var fds: set<int>
    ghost var failed: nat   // how many calls have failed

    constructor (disk: map<Bytes, Bytes>)
      ensures this.disk == disk && fds == {} && failed == 0
    {
      this.disk, fds, failed := disk, {}, 0;
    }

    method Open(name: Bytes, hasPread: bool) returns (fd: int, f: File?)
      modifies this`fds, this`failed
      ensures failed == old(failed) + if f == null then 1 else 0
      ensures if f == null then fds == old(fds)
              else
                && fd !in old(fds) && fds == old(fds) + {fd} && name in disk
                && fresh(f) && f.data == disk[name] && f.offset == 0 && f.failed == 0 && f.InOrder()
    {
      fd, f := *, null;
      var garbage: int := *;
      if name in disk && fd !in fds {
        fds := fds + {fd};
        f := new File(disk[name], hasPread, garbage);
      } else {
        failed := failed + 1;
      }
    }

    /** close: the descriptor is gone even if an error is reported. */
    method Close(fd: int) returns (ok: bool)
      requires fd in fds
      modifies this`fds, this`failed
      ensures fds == old(fds) - {fd} && failed == old(failed) + if ok then 0 else 1
    {
      ok := *;
      if !ok {
        failed := failed + 1;
      }
      fds := fds - {fd};
    }
  }
}
