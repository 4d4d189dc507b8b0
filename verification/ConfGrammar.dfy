/**
  The driver cw_conf_parse over the unbuffered scanner: directives, nested blocks, and the
  handlers that take or refuse them and change the configuration.
 */
module ConfGrammar {
  import opened Bytes
  import opened ConfScan
  import opened ConfSpelling
  import opened ConfPrint

  type Args = seq<Bytes>

  /**
    A directive as the driver hands it on, ended by ";" or "{": one whose handler returned at
    once, or one whose handler first parsed what comes behind it.
   */
  datatype Node = Leaf(args: Args, block: bool) | Nest(args: Args, block: bool, body: seq<Node>)

  /** The local enum `type` of cw_conf_parse. */
  datatype Mode = InFile | InBlock | InParam

  /** The mode of cw_conf_parse(cf, NULL), called by a handler. */
  function Inner(mode: Mode): Mode {
    if mode == InParam then InParam else InBlock
  }

  /**
    What a handler does with a directive: it refuses, it is done and has changed the
    configuration, or it has changed the configuration and now calls cw_conf_parse(cf, NULL).
   */
  datatype Reply<+St> = Refuse | Done(st: St) | Enter(st: St)

  /**
    The handlers, over any type of configuration: all that they read and write, cf itself
    included. `custom` says whether cf->handler is set. `take` is cf->handler or cw_conf_handler,
    given the arguments and whether "{" ended them. `leave` is the rest of a handler that called
    cw_conf_parse(cf, NULL) and got CW_CONF_OK: it knows the configuration and the arguments from
    before, and the configuration the block has left.
   */
  datatype Handlers<!St> = Handlers(
    custom: St -> bool,
    take: (St, Args, bool) -> Reply<St>,
    leave: (St, Args, bool, St) -> Option<St>)

  datatype Parse<+St> = Parsed(nodes: seq<Node>, st: St, line: nat, rest: Bytes) | Rejected

  /** A custom handler is never given a block. */
  function React<St>(h: Handlers<St>, st: St, args: Args, block: bool): Reply<St> {
    if block && h.custom(st) then Refuse else h.take(st, args, block)
  }

  function Prepend<St>(ns: seq<Node>, p: Parse<St>): Parse<St> {
    if p.Rejected? then Rejected else p.(nodes := ns + p.nodes)
  }

  /** One call of cw_conf_parse, from its first token to its return. */
  function ParseFrom<St>(h: Handlers<St>, src: Source, mode: Mode, st: St, line: nat, rest: Bytes): (p: Parse<St>)
    ensures p.Parsed? ==> |p.rest| <= |rest|
    decreases |rest|, 0
  {
    var t := NextToken(src, line, rest);
    if t.code == BlockDone then
      if mode == InBlock then Parsed([], st, t.line, t.rest) else Rejected
    else if t.code == FileDone then
      if mode == InBlock then Rejected else Parsed([], st, t.line, t.rest)
    else if t.code.Error? || (t.code == BlockStart && mode == InParam) then Rejected
    else Behind(h, src, mode, st, t.args, t.code == BlockStart, t.line, t.rest)
  }

  /** The same call from a directive on, just read: its handler, and what follows. */
  function Behind<St>(
      h: Handlers<St>, src: Source, mode: Mode, st: St, args: Args, block: bool, line: nat, rest: Bytes): (p: Parse<St>)
    ensures p.Parsed? ==> |p.rest| <= |rest|
    decreases |rest|, 1
  {
    match React(h, st, args, block)
    case Refuse => Rejected
    case Done(st1) => Prepend([Leaf(args, block)], ParseFrom(h, src, mode, st1, line, rest))
    case Enter(st1) =>
      var inner := ParseFrom(h, src, Inner(mode), st1, line, rest);
      if inner.Rejected? then Rejected
      else
        match h.leave(st, args, block, inner.st)
        case None => Rejected
        case Some(st2) =>
          Prepend([Nest(args, block, inner.nodes)], ParseFrom(h, src, mode, st2, inner.line, inner.rest))
  }

  // ---------------------------------------------------------------- the token stream on its own

  datatype Tok = Tok(code: Code, args: Args)

  /** Every token of the bytes, up to and with the first one that ends the file or is an error. */
  function Tokens(src: Source, line: nat, rest: Bytes): seq<Tok>
    decreases |rest|
  {
    var t := NextToken(src, line, rest);
    [Tok(t.code, t.args)] + if t.code.Error? || t.code.FileDone? then [] else Tokens(src, t.line, t.rest)
  }

  /** A handler that waits for the end of its block: what it was called with. */
  datatype Frame<+St> = Frame(st: St, args: Args, block: bool)

  function Close<St>(h: Handlers<St>, f: Frame<St>, st: St): Option<St> {
    h.leave(f.st, f.args, f.block, st)
  }

  /** Every waiting handler in turn is told that its parse is over. */
  function Unwind<St>(h: Handlers<St>, stack: seq<Frame<St>>, st: St): Option<St>
    decreases |stack|
  {
    if stack == [] then Some(st)
    else
      var n := |stack| - 1;
      match Close(h, stack[n], st)
      case None => None
      case Some(st1) => Unwind(h, stack[..n], st1)
  }

  /** One pass over the tokens, with the waiting handlers on an explicit stack; None if the text is rejected. */
  function Walk<St>(h: Handlers<St>, inFile: bool, stack: seq<Frame<St>>, st: St, ts: seq<Tok>): Option<St>
    decreases |ts|
  {
    if ts == [] || ts[0].code.Error? then None
    else if ts[0].code == FileDone then
      if !inFile then Unwind(h, stack, st) else if stack == [] then Some(st) else None
    else if ts[0].code == BlockDone then
      if !inFile || stack == [] then None
      else
        var n := |stack| - 1;
        match Close(h, stack[n], st)
        case None => None
        case Some(st1) => Walk(h, inFile, stack[..n], st1, ts[1..])
    else
      var block := ts[0].code == BlockStart;
      if block && !inFile then None
      else
        match React(h, st, ts[0].args, block)
        case Refuse => None
        case Done(st1) => Walk(h, inFile, stack, st1, ts[1..])
        case Enter(st1) => Walk(h, inFile, stack + [Frame(st, ts[0].args, block)], st1, ts[1..])
  }

  /** What the walk makes of the rest, once the call on top of the stack has returned p. */
  function Return<St>(h: Handlers<St>, src: Source, inFile: bool, stack: seq<Frame<St>>, p: Parse<St>): Option<St> {
    if p.Rejected? then None
    else if stack == [] then Some(p.st)
    else
      var n := |stack| - 1;
      match Close(h, stack[n], p.st)
      case None => None
      case Some(st1) => Walk(h, inFile, stack[..n], st1, Tokens(src, p.line, p.rest))
  }

  /** The calls that can be under way: the outermost of a file, one inside it, or one for a parameter. */
  predicate Under<St>(mode: Mode, stack: seq<Frame<St>>) {
    (mode == InFile ==> stack == []) && (mode == InBlock ==> stack != [])
  }

  /**
    Each recursive call consumes exactly its own tokens: the one-pass walk over all tokens agrees
    with the recursive call followed by the walk over what it leaves.
   */
  lemma {:induction false} CallIsStackFrame<St>(
      h: Handlers<St>, src: Source, mode: Mode, stack: seq<Frame<St>>, st: St, line: nat, rest: Bytes)
    requires Under(mode, stack)
    ensures Walk(h, mode != InParam, stack, st, Tokens(src, line, rest))
         == Return(h, src, mode != InParam, stack, ParseFrom(h, src, mode, st, line, rest))
    decreases |rest|, 0
  {
    hide NextToken, Behind, React;
    var t := NextToken(src, line, rest);
    if t.code == FileDone {
      AtTheEnd(h, src, mode, stack, st, line, rest, t);
    } else if t.code == Ok || t.code == BlockStart {
      if !(t.code == BlockStart && mode == InParam) {
        DirectiveIsStackFrame(h, src, mode, stack, st, t.args, t.code == BlockStart, t.line, t.rest);
      }
    }
  }

  lemma WalkDirective<St>(
      h: Handlers<St>, inFile: bool, stack: seq<Frame<St>>, st: St, args: Args, block: bool, ts: seq<Tok>)
    requires inFile || !block
    ensures var w := Walk(h, inFile, stack, st, [Tok(if block then BlockStart else Ok, args)] + ts);
            var r := React(h, st, args, block);
            && (r.Refuse? ==> w == None)
            && (r.Done? ==> w == Walk(h, inFile, stack, r.st, ts))
            && (r.Enter? ==> w == Walk(h, inFile, stack + [Frame(st, args, block)], r.st, ts))
  {
    hide React;
    assert ([Tok(if block then BlockStart else Ok, args)] + ts)[1..] == ts;
  }

  /** The same from a directive on. */
  lemma {:induction false} DirectiveIsStackFrame<St>(
      h: Handlers<St>, src: Source, mode: Mode, stack: seq<Frame<St>>, st: St, args: Args, block: bool, line: nat,
      rest: Bytes)
    requires Under(mode, stack) && !(block && mode == InParam)
    ensures Walk(h, mode != InParam, stack, st, [Tok(if block then BlockStart else Ok, args)] + Tokens(src, line, rest))
         == Return(h, src, mode != InParam, stack, Behind(h, src, mode, st, args, block, line, rest))
    decreases |rest|, 1
  {
    hide Tokens, ParseFrom, React, Walk;
    WalkDirective(h, mode != InParam, stack, st, args, block, Tokens(src, line, rest));
    match React(h, st, args, block)
    case Refuse =>
    case Done(st1) =>
      CallIsStackFrame(h, src, mode, stack, st1, line, rest);
    case Enter(st1) =>
      var stack1 := stack + [Frame(st, args, block)];
      assert stack1[..|stack|] == stack && stack1[|stack|] == Frame(st, args, block);
      CallIsStackFrame(h, src, Inner(mode), stack1, st1, line, rest);
      var inner := ParseFrom(h, src, Inner(mode), st1, line, rest);
      if inner.Parsed? && h.leave(st, args, block, inner.st).Some? {
        CallIsStackFrame(h, src, mode, stack, h.leave(st, args, block, inner.st).value, inner.line, inner.rest);
      }
  }

  /** At the end of a parameter every call under way ends, one after the other. */
  lemma AtTheEnd<St>(
      h: Handlers<St>, src: Source, mode: Mode, stack: seq<Frame<St>>, st: St, line: nat, rest: Bytes, t: Token)
    requires Under(mode, stack) && t == NextToken(src, line, rest) && t.code == FileDone
    ensures Walk(h, mode != InParam, stack, st, Tokens(src, line, rest))
         == Return(h, src, mode != InParam, stack, ParseFrom(h, src, mode, st, line, rest))
  {
    TokenContract(src, line, rest);
    assert t.rest == [];
    assert Tokens(src, t.line, [])[0].code == FileDone by { EmptyEnds(src, t.line); }
  }

  lemma EmptyEnds(src: Source, line: nat)
    ensures NextToken(src, line, []).code == FileDone
  {
  }

  /**
    Parsing a whole file or parameter is one walk over its tokens: it succeeds exactly when they
    are nested as the handlers ask for and each handler, given the configuration the ones before
    it have left, takes its directive; and the configuration it leaves is that of the walk.
   */
  lemma ParseIsWalk<St>(h: Handlers<St>, src: Source, mode: Mode, st: St, line: nat, data: Bytes)
    requires mode != InBlock
    ensures var p := ParseFrom(h, src, mode, st, line, data);
            Walk(h, mode == InFile, [], st, Tokens(src, line, data)) == if p.Parsed? then Some(p.st) else None
  {
    CallIsStackFrame(h, src, mode, [], st, line, data);
  }

  /** Tree and configuration depend on the tokens alone: not on line numbers, nor on how they were written. */
  lemma {:induction false} SameTokensSameTree<St>(
      h: Handlers<St>, src: Source, mode: Mode, st: St, line: nat, rest: Bytes, line': nat, rest': Bytes)
    requires Tokens(src, line, rest) == Tokens(src, line', rest')
    ensures SameOutcome(src, ParseFrom(h, src, mode, st, line, rest), ParseFrom(h, src, mode, st, line', rest'))
    decreases |rest|, 0
  {
    hide NextToken, Behind;
    var t, t' := NextToken(src, line, rest), NextToken(src, line', rest');
    var ts, ts' := Tokens(src, line, rest), Tokens(src, line', rest');
    assert ts[0] == Tok(t.code, t.args) && ts'[0] == Tok(t'.code, t'.args);
    if t.code == FileDone {
      BothAtTheEnd(src, line, rest, t, line', rest', t');
    } else if !t.code.Error? {
      assert ts[1..] == Tokens(src, t.line, t.rest) && ts'[1..] == Tokens(src, t'.line, t'.rest);
      if t.code == Ok || t.code == BlockStart {
        SameBehind(h, src, mode, st, t.args, t.code == BlockStart, t.line, t.rest, t'.line, t'.rest);
      }
    }
  }

  lemma {:induction false} SameBehind<St>(
      h: Handlers<St>, src: Source, mode: Mode, st: St, args: Args, block: bool, line: nat, rest: Bytes, line': nat,
      rest': Bytes)
    requires Tokens(src, line, rest) == Tokens(src, line', rest')
    ensures SameOutcome(
              src, Behind(h, src, mode, st, args, block, line, rest),
              Behind(h, src, mode, st, args, block, line', rest'))
    decreases |rest|, 1
  {
    hide Tokens, ParseFrom, React;
    match React(h, st, args, block)
    case Refuse =>
    case Done(st1) =>
      SameTokensSameTree(h, src, mode, st1, line, rest, line', rest');
    case Enter(st1) =>
      SameTokensSameTree(h, src, Inner(mode), st1, line, rest, line', rest');
      var inner := ParseFrom(h, src, Inner(mode), st1, line, rest);
      var inner' := ParseFrom(h, src, Inner(mode), st1, line', rest');
      if inner.Parsed? && h.leave(st, args, block, inner.st).Some? {
        var st2 := h.leave(st, args, block, inner.st).value;
        SameTokensSameTree(h, src, mode, st2, inner.line, inner.rest, inner'.line, inner'.rest);
      }
  }

  /** Both are rejected, or both give the same tree and configuration and leave the same tokens. */
  ghost predicate SameOutcome<St>(src: Source, p: Parse<St>, q: Parse<St>) {
    && p.Parsed? == q.Parsed?
    && (p.Parsed? ==> p.nodes == q.nodes && p.st == q.st && Tokens(src, p.line, p.rest) == Tokens(src, q.line, q.rest))
  }

  lemma BothAtTheEnd(src: Source, line: nat, rest: Bytes, t: Token, line': nat, rest': Bytes, t': Token)
    requires t == NextToken(src, line, rest) && t' == NextToken(src, line', rest') && t.code == t'.code == FileDone
    ensures Tokens(src, t.line, t.rest) == Tokens(src, t'.line, t'.rest)
  {
    TokenContract(src, line, rest);
    TokenContract(src, line', rest');
    TokenContract(src, t.line, []);
    TokenContract(src, t'.line, []);
    EmptyEnds(src, t.line);
    EmptyEnds(src, t'.line);
  }

  // ---------------------------------------------------------------- nesting by counting

  function Weight(t: Tok): int {
    if t.code == BlockStart then 1 else if t.code == BlockDone then -1 else 0
  }

  function Depth(ts: seq<Tok>): int {
    if ts == [] then 0 else Weight(ts[0]) + Depth(ts[1..])
  }

  /** Opening and closing braces match: no prefix closes more than d + what it opens, the whole leaves none open. */
  ghost predicate Balanced(ts: seq<Tok>, d: int) {
    && ts != []
    && ts[|ts| - 1].code == FileDone
    && (forall k :: 0 <= k < |ts| - 1 ==> !ts[k].code.Error? && !ts[k].code.FileDone?)
    && (forall k :: 0 <= k <= |ts| ==> d + Depth(ts[..k]) >= 0)
    && d + Depth(ts) == 0
  }

  lemma {:induction false} BalancedTail(ts: seq<Tok>, d: int)
    requires |ts| > 1 && d >= 0
    ensures Balanced(ts, d) <==>
            && !ts[0].code.Error? && !ts[0].code.FileDone?
            && d + Weight(ts[0]) >= 0 && Balanced(ts[1..], d + Weight(ts[0]))
  {
    forall k | 1 <= k <= |ts|
      ensures Depth(ts[..k]) == Weight(ts[0]) + Depth(ts[1..][..k - 1])
    {
      assert ts[..k][1..] == ts[1..][..k - 1];
    }
    assert ts[..|ts|] == ts;
    var us := ts[1..];
    if Balanced(us, d + Weight(ts[0])) && !ts[0].code.Error? && !ts[0].code.FileDone? {
      assert forall k :: 1 <= k < |ts| - 1 ==> ts[k] == us[k - 1];
      assert forall k :: 1 <= k <= |ts| ==> d + Depth(ts[..k]) == d + Weight(ts[0]) + Depth(us[..k - 1]);
    }
    if Balanced(ts, d) {
      assert forall k :: 0 <= k < |us| ==> us[k] == ts[k + 1];
      assert forall k :: 0 <= k <= |us| ==> Depth(ts[..k + 1]) == Weight(ts[0]) + Depth(us[..k]);
      assert Depth(ts[..1]) == Weight(ts[0]);
    }
  }

  /** Handlers that take everything and parse every block, as most block directives do. */
  ghost predicate TakesAll<St(!new)>(h: Handlers<St>) {
    && (forall st, args :: React(h, st, args, false).Done? && React(h, st, args, true).Enter?)
    && (forall st, args, block, st1 :: h.leave(st, args, block, st1).Some?)
  }

  /** With such handlers the walk with a stack is the count of braces. */
  lemma {:induction false} WalkIsBalanced<St(!new)>(h: Handlers<St>, stack: seq<Frame<St>>, st: St, ts: seq<Tok>)
    requires TakesAll(h)
    requires forall k :: 0 <= k < |ts| - 1 ==> !ts[k].code.Error? && !ts[k].code.FileDone?
    ensures Walk(h, true, stack, st, ts).Some? <==> Balanced(ts, |stack|)
    decreases |ts|
  {
    hide React;
    if |ts| > 1 {
      BalancedTail(ts, |stack|);
      match ts[0].code
      case Ok => WalkIsBalanced(h, stack, React(h, st, ts[0].args, false).st, ts[1..]);
      case BlockStart =>
        WalkIsBalanced(h, stack + [Frame(st, ts[0].args, true)], React(h, st, ts[0].args, true).st, ts[1..]);
      case BlockDone =>
        if stack != [] {
          var n := |stack| - 1;
          WalkIsBalanced(h, stack[..n], Close(h, stack[n], st).value, ts[1..]);
        }
      case _ =>
    } else if |ts| == 1 {
      assert ts[1..] == [] && ts[..1] == ts && ts[..0] == [];
      assert Depth(ts) == Weight(ts[0]) + Depth([]);
    }
  }

  lemma {:induction false} TokensShape(src: Source, line: nat, rest: Bytes)
    ensures var ts := Tokens(src, line, rest);
            && ts != []
            && (forall k :: 0 <= k < |ts| - 1 ==> !ts[k].code.Error? && !ts[k].code.FileDone?)
            && (forall k :: 0 <= k < |ts| ==> (ts[k].args != [] <== ts[k].code in {Ok, BlockStart}))
    decreases |rest|
  {
    hide ScanToken;
    var t := NextToken(src, line, rest);
    TokenContract(src, line, rest);
    if !t.code.Error? && !t.code.FileDone? {
      TokensShape(src, t.line, t.rest);
      assert Tokens(src, line, rest)[1..] == Tokens(src, t.line, t.rest);
    }
  }

  /** With such handlers a file parses exactly when its braces match by count and no token is an error. */
  lemma ParseIsBalanced<St(!new)>(h: Handlers<St>, src: Source, st: St, line: nat, data: Bytes)
    requires TakesAll(h)
    ensures ParseFrom(h, src, InFile, st, line, data).Parsed? <==> Balanced(Tokens(src, line, data), 0)
  {
    ParseIsWalk(h, src, InFile, st, line, data);
    TokensShape(src, line, data);
    WalkIsBalanced(h, [], st, Tokens(src, line, data));
  }

  /** Handlers that parse no block leave none to close: any closing brace is an error. */
  lemma {:induction false} NoBlockToClose<St>(h: Handlers<St>, inFile: bool, st: St, ts: seq<Tok>, k: nat)
    requires forall s: St, args, block :: !React(h, s, args, block).Enter?
    requires k < |ts| && ts[k].code == BlockDone && forall l :: 0 <= l < k ==> !ts[l].code.FileDone?
    ensures Walk(h, inFile, [], st, ts).None?
    decreases |ts|
  {
    hide React;
    if k > 0 && (ts[0].code == Ok || ts[0].code == BlockStart) {
      var r := React(h, st, ts[0].args, ts[0].code == BlockStart);
      if r.Done? {
        assert ts[1..][k - 1] == ts[k];
        NoBlockToClose(h, inFile, r.st, ts[1..], k - 1);
      }
    }
  }

  // ---------------------------------------------------------------- what handlers see, in order

  /** What a handler can write down: a directive, a block it is about to parse, and, with what it knew then, its end. */
  datatype Event = Simple(args: Args) | Opened(args: Args) | Closed(args: Args, at: nat)

  /** Handlers that parse every block and write it all down; at the end of a block, how much was written before it. */
  function Recorder(): Handlers<seq<Event>> {
    Handlers(
      st => false,
      (st, args, block) => if block then Enter(st + [Opened(args)]) else Done(st + [Simple(args)]),
      (st, args, block, st1) => Some(st1 + [Closed(args, |st|)]))
  }

  /** The events of a token sequence, with the blocks that are open: their arguments and the place of their start. */
  function Events(ts: seq<Tok>, open: seq<(Args, nat)>, log: seq<Event>): Option<seq<Event>>
    decreases |ts|
  {
    if ts == [] then None
    else
      match ts[0].code
      case Error(_) => None
      case FileDone => if open == [] then Some(log) else None
      case Ok => Events(ts[1..], open, log + [Simple(ts[0].args)])
      case BlockStart => Events(ts[1..], open + [(ts[0].args, |log|)], log + [Opened(ts[0].args)])
      case BlockDone =>
        if open == [] then None
        else
          var n := |open| - 1;
          Events(ts[1..], open[..n], log + [Closed(open[n].0, open[n].1)])
  }

  ghost predicate Same(stack: seq<Frame<seq<Event>>>, open: seq<(Args, nat)>) {
    |stack| == |open| && forall i :: 0 <= i < |open| ==> open[i] == (stack[i].args, |stack[i].st|)
  }

  lemma {:induction false} WalkRecords(
      stack: seq<Frame<seq<Event>>>, open: seq<(Args, nat)>, log: seq<Event>, ts: seq<Tok>)
    requires Same(stack, open)
    ensures Walk(Recorder(), true, stack, log, ts) == Events(ts, open, log)
    decreases |ts|
  {
    if ts != [] {
      var t := ts[0];
      var n := |open| - 1;
      match t.code
      case Ok => WalkRecords(stack, open, log + [Simple(t.args)], ts[1..]);
      case BlockStart =>
        WalkRecords(stack + [Frame(log, t.args, true)], open + [(t.args, |log|)], log + [Opened(t.args)], ts[1..]);
      case BlockDone =>
        if open != [] {
          WalkRecords(stack[..n], open[..n], log + [Closed(open[n].0, open[n].1)], ts[1..]);
        }
      case _ =>
    }
  }

  /**
    Handlers are called in the order of the text, each with what the ones before it have left; the
    rest of a handler runs at the end of its own block, and still knows what was there before it.
   */
  lemma EventsInOrder(src: Source, line: nat, data: Bytes)
    ensures var p := ParseFrom(Recorder(), src, InFile, [], line, data);
            Events(Tokens(src, line, data), [], []) == if p.Parsed? then Some(p.st) else None
  {
    hide Walk, Events, Recorder;
    ParseIsWalk(Recorder(), src, InFile, [], line, data);
    WalkRecords([], [], [], Tokens(src, line, data));
  }

  // ---------------------------------------------------------------- printed trees

  function PrintNode(n: Node): Bytes
    requires NamedNode(n)
    decreases n
  {
    match n
    case Leaf(args, _) => [LF] + PrintHead(args, false)
    case Nest(args, _, body) => [LF] + PrintHead(args, true) + PrintNodes(body) + [LF, RBRACE]
  }

  function PrintNodes(ns: seq<Node>): Bytes
    requires Named(ns)
    decreases ns
  {
    if ns == [] then [] else PrintNode(ns[0]) + PrintNodes(ns[1..])
  }

  function PrintFile(ns: seq<Node>): Bytes
    requires Named(ns)
  {
    PrintNodes(ns) + [LF]
  }

  /** Every directive has a name, and those with a block are the ones ended by "{". */
  predicate NamedNode(n: Node)
    decreases n
  {
    n.args != [] && n.block == n.Nest? && (n.Nest? ==> Named(n.body))
  }

  predicate Named(ns: seq<Node>)
    decreases ns
  {
    ns != [] ==> NamedNode(ns[0]) && Named(ns[1..])
  }

  /** Every word of the tree, printed, stays below the buffer limit. */
  predicate NodeFits(src: Source, n: Node)
    decreases n
  {
    AllFit(src, n.args, n.block) && (n.Nest? ==> TreeFits(src, n.body))
  }

  predicate TreeFits(src: Source, ns: seq<Node>)
    decreases ns
  {
    ns != [] ==> NodeFits(src, ns[0]) && TreeFits(src, ns[1..])
  }

  /**
    The handlers called along the tree, each on the configuration the ones before it have left;
    None if one refuses, does not parse the block the tree has there, or parses one it has not.
   */
  function FollowNode<St>(h: Handlers<St>, mode: Mode, st: St, n: Node): Option<St>
    decreases n
  {
    var r := if mode == InParam && n.block then Refuse else React(h, st, n.args, n.block);
    match n
    case Leaf(_, _) => if r.Done? then Some(r.st) else None
    case Nest(args, block, body) =>
      if !r.Enter? then None
      else
        match Follow(h, Inner(mode), r.st, body)
        case None => None
        case Some(st1) => h.leave(st, args, block, st1)
  }

  function Follow<St>(h: Handlers<St>, mode: Mode, st: St, ns: seq<Node>): Option<St>
    decreases ns
  {
    if ns == [] then Some(st)
    else
      match FollowNode(h, mode, st, ns[0])
      case None => None
      case Some(st1) => Follow(h, mode, st1, ns[1..])
  }

  /** Handlers that parse a block exactly when there is one. */
  ghost predicate Orderly<St(!new)>(h: Handlers<St>) {
    forall st, args :: !React(h, st, args, false).Enter? && !React(h, st, args, true).Done?
  }

  function NodeLines(n: Node): nat
    decreases n
  {
    1 + if n.Nest? then TreeLines(n.body) + 1 else 0
  }

  function TreeLines(ns: seq<Node>): nat
    decreases ns
  {
    if ns == [] then 0 else NodeLines(ns[0]) + TreeLines(ns[1..])
  }

  /** Without a buffer every tree fits. */
  lemma {:induction false} ParamFits(src: Source, ns: seq<Node>)
    requires src.limit.None?
    ensures TreeFits(src, ns)
    decreases ns
  {
    if ns != [] {
      if ns[0].Nest? {
        ParamFits(src, ns[0].body);
      }
      ParamFits(src, ns[1..]);
    }
  }

  lemma OneLineFeed()
    ensures Blanks([LF], false) && LineFeeds([LF]) == 1 && GapPeak([LF], 0, false) == 1
  {
    assert [LF][1..] == [];
  }

  lemma HeadToken(src: Source, line: nat, args: Args, block: bool, tail: Bytes)
    requires args != [] && Below(src, 0)
    ensures var t := NextToken(src, line, [LF] + PrintHead(args, block) + tail);
            if AllFit(src, args, block)
            then t == Token(if block then BlockStart else Ok, args, line + 1, tail)
            else t.code.Error?
  {
    hide PrintHead, Fits, ScanToken, GapPeak, LineFeeds;
    OneLineFeed();
    TokenRoundTrip(src, line, [LF], args, block, tail);
    if AllFit(src, args, block) {
      FitsBelow(src, args, block);
    }
  }

  lemma CloseToken(src: Source, line: nat, tail: Bytes)
    requires Below(src, 1)
    ensures NextToken(src, line, [LF, RBRACE] + tail) == Token(BlockDone, [], line + 1, tail)
  {
    RunOne(src, Init(line), LF);
    assert [LF, RBRACE] + tail == [LF] + ([RBRACE] + tail);
    RunThenScan(src, Init(line), [LF], [RBRACE] + tail);
    StopScan(src, Step(Init(line), LF).s, RBRACE, tail);
  }

  lemma EndToken(src: Source, line: nat)
    requires Below(src, 0)
    ensures NextToken(src, line, [LF]) == Token(FileDone, [], line + 1, [])
  {
    RunOne(src, Init(line), LF);
    assert [LF] + [] == [LF];
    RunThenScan(src, Init(line), [LF], []);
  }

  /** A printed directive, whatever follows it. */
  lemma ParsePrintedHead<St>(
      h: Handlers<St>, src: Source, mode: Mode, st: St, line: nat, args: Args, block: bool, more: Bytes)
    requires args != [] && Below(src, 0)
    ensures ParseFrom(h, src, mode, st, line, [LF] + PrintHead(args, block) + more)
         == if !AllFit(src, args, block) || (block && mode == InParam) then Rejected
            else Behind(h, src, mode, st, args, block, line + 1, more)
  {
    hide NextToken, PrintHead, Behind, Fits;
    HeadToken(src, line, args, block, more);
  }

  lemma ParsePrintedClose<St>(h: Handlers<St>, src: Source, st: St, line: nat, more: Bytes)
    requires Below(src, 1)
    ensures ParseFrom(h, src, InBlock, st, line, [LF, RBRACE] + more) == Parsed([], st, line + 1, more)
  {
    hide NextToken;
    CloseToken(src, line, more);
  }

  /** The text was rejected, or it was not read as n: then a handler has not kept to the block structure. */
  ghost predicate Missed<St(!new)>(h: Handlers<St>, n: Node, p: Parse<St>) {
    p.Rejected? || (!Orderly(h) && p.nodes != [] && p.nodes[0] != n)
  }

  /** The same for a list of directives. */
  ghost predicate MissedAny<St(!new)>(h: Handlers<St>, ns: seq<Node>, p: Parse<St>) {
    p.Rejected? || (!Orderly(h) && !(ns <= p.nodes))
  }

  lemma {:induction false} ParsePrintedNode<St(!new)>(
      h: Handlers<St>, src: Source, mode: Mode, st: St, line: nat, n: Node, more: Bytes)
    requires NamedNode(n) && Below(src, 0)
    ensures var p := ParseFrom(h, src, mode, st, line, PrintNode(n) + more);
            var f := FollowNode(h, mode, st, n);
            if f.Some? && NodeFits(src, n) then
              p == Prepend([n], ParseFrom(h, src, mode, f.value, line + NodeLines(n), more))
            else Missed(h, n, p)
    decreases n
  {
    hide ParseFrom, PrintHead, React, AllFit, Follow, TreeFits, PrintNodes, TreeLines, Named;
    if n.Leaf? {
      ParsePrintedHead(h, src, mode, st, line, n.args, false, more);
    } else {
      var line1 := line + 1;
      var close := [LF, RBRACE] + more;
      assert PrintNode(n) + more == [LF] + PrintHead(n.args, true) + (PrintNodes(n.body) + close);
      ParsePrintedHead(h, src, mode, st, line, n.args, true, PrintNodes(n.body) + close);
      var r := React(h, st, n.args, true);
      if AllFit(src, n.args, true) && mode != InParam && r.Enter? {
        ParsePrinted(h, src, InBlock, r.st, line1, n.body, close);
        var f := Follow(h, InBlock, r.st, n.body);
        if f.Some? && TreeFits(src, n.body) {
          FitsBelow(src, n.args, true);
          ParsePrintedClose(h, src, f.value, line1 + TreeLines(n.body), more);
          assert n.body + [] == n.body;
        }
      }
    }
  }

  lemma {:induction false} ParsePrinted<St(!new)>(
      h: Handlers<St>, src: Source, mode: Mode, st: St, line: nat, ns: seq<Node>, tail: Bytes)
    requires Named(ns) && Below(src, 0)
    ensures var p := ParseFrom(h, src, mode, st, line, PrintNodes(ns) + tail);
            var f := Follow(h, mode, st, ns);
            if f.Some? && TreeFits(src, ns) then
              p == Prepend(ns, ParseFrom(h, src, mode, f.value, line + TreeLines(ns), tail))
            else MissedAny(h, ns, p)
    decreases ns
  {
    hide ParseFrom, FollowNode, NodeFits, NodeLines, PrintNode, NamedNode, Orderly;
    if ns == [] {
      assert [] + tail == tail;
    } else {
      var more := PrintNodes(ns[1..]) + tail;
      assert PrintNodes(ns) + tail == PrintNode(ns[0]) + more;
      ParsePrintedNode(h, src, mode, st, line, ns[0], more);
      var f := FollowNode(h, mode, st, ns[0]);
      if f.Some? {
        var line1 := line + NodeLines(ns[0]);
        ParsePrinted(h, src, mode, f.value, line1, ns[1..], tail);
        var q := ParseFrom(h, src, mode, f.value, line1, more);
        PrependAll(ns, q);
        if Follow(h, mode, f.value, ns[1..]).Some? {
          var st1 := Follow(h, mode, f.value, ns[1..]).value;
          PrependPrepend(ns, ParseFrom(h, src, mode, st1, line + TreeLines(ns), tail));
        }
      }
    }
  }

  /** The tokens of a printed tree, without the end of the file. */
  function TreeTokens(ns: seq<Node>): seq<Tok>
    decreases ns
  {
    if ns == [] then [] else NodeTokens(ns[0]) + TreeTokens(ns[1..])
  }

  function NodeTokens(n: Node): seq<Tok>
    decreases n
  {
    match n
    case Leaf(args, _) => [Tok(Ok, args)]
    case Nest(args, _, body) => [Tok(BlockStart, args)] + TreeTokens(body) + [Tok(BlockDone, [])]
  }

  lemma TokensOfHead(src: Source, line: nat, args: Args, block: bool, more: Bytes)
    requires args != [] && Below(src, 0) && AllFit(src, args, block)
    ensures Tokens(src, line, [LF] + PrintHead(args, block) + more)
         == [Tok(if block then BlockStart else Ok, args)] + Tokens(src, line + 1, more)
  {
    hide NextToken, PrintHead, AllFit;
    HeadToken(src, line, args, block, more);
  }

  lemma TokensOfClose(src: Source, line: nat, more: Bytes)
    requires Below(src, 1)
    ensures Tokens(src, line, [LF, RBRACE] + more) == [Tok(BlockDone, [])] + Tokens(src, line + 1, more)
  {
    hide NextToken;
    CloseToken(src, line, more);
  }

  lemma {:induction false} TokensOfNode(src: Source, line: nat, n: Node, more: Bytes)
    requires NamedNode(n) && Below(src, 0) && NodeFits(src, n)
    ensures Tokens(src, line, PrintNode(n) + more) == NodeTokens(n) + Tokens(src, line + NodeLines(n), more)
    decreases n
  {
    hide Tokens, PrintHead, AllFit, PrintNodes, TreeLines, TreeTokens, Named, TreeFits;
    if n.Leaf? {
      TokensOfHead(src, line, n.args, false, more);
    } else {
      var line1 := line + 1;
      var close := [LF, RBRACE] + more;
      assert PrintNode(n) + more == [LF] + PrintHead(n.args, true) + (PrintNodes(n.body) + close);
      TokensOfHead(src, line, n.args, true, PrintNodes(n.body) + close);
      TokensOfNodes(src, line1, n.body, close);
      FitsBelow(src, n.args, true);
      TokensOfClose(src, line1 + TreeLines(n.body), more);
    }
  }

  lemma {:induction false} TokensOfNodes(src: Source, line: nat, ns: seq<Node>, tail: Bytes)
    requires Named(ns) && Below(src, 0) && TreeFits(src, ns)
    ensures Tokens(src, line, PrintNodes(ns) + tail) == TreeTokens(ns) + Tokens(src, line + TreeLines(ns), tail)
    decreases ns
  {
    hide Tokens, NodeFits, NodeLines, PrintNode, NamedNode, NodeTokens;
    if ns == [] {
      assert [] + tail == tail;
    } else {
      var more := PrintNodes(ns[1..]) + tail;
      assert PrintNodes(ns) + tail == PrintNode(ns[0]) + more;
      TokensOfNode(src, line, ns[0], more);
      TokensOfNodes(src, line + NodeLines(ns[0]), ns[1..], tail);
    }
  }

  /** A printed tree has exactly the tokens of the tree, whatever the handlers make of them. */
  lemma PrintedTokens(src: Source, line: nat, ns: seq<Node>)
    requires Named(ns) && Below(src, 0) && TreeFits(src, ns)
    ensures Tokens(src, line, PrintFile(ns)) == TreeTokens(ns) + [Tok(FileDone, [])]
  {
    hide Tokens, PrintNodes, TreeLines, TreeFits, TreeTokens, Named;
    TokensOfNodes(src, line, ns, [LF]);
    EndToken(src, line + TreeLines(ns));
    LastToken(src, line + TreeLines(ns));
  }

  lemma LastToken(src: Source, line: nat)
    requires NextToken(src, line, [LF]) == Token(FileDone, [], line + 1, [])
    ensures Tokens(src, line, [LF]) == [Tok(FileDone, [])]
  {
    hide NextToken;
  }

  lemma PrependPrepend<St>(ns: seq<Node>, p: Parse<St>)
    requires ns != []
    ensures Prepend([ns[0]], Prepend(ns[1..], p)) == Prepend(ns, p)
  {
    if p.Parsed? {
      assert [ns[0]] + (ns[1..] + p.nodes) == ns + p.nodes;
    }
  }

  /** What is not a prefix stays none behind the same first element. */
  lemma PrependAll<St>(ns: seq<Node>, p: Parse<St>)
    requires ns != []
    ensures p.Parsed? && ns <= Prepend([ns[0]], p).nodes ==> ns[1..] <= p.nodes
  {
    if p.Parsed? && ns <= [ns[0]] + p.nodes {
      assert ([ns[0]] + p.nodes)[1..|ns|] == p.nodes[..|ns| - 1];
    }
  }

  lemma FitsBelow(src: Source, args: Args, block: bool)
    requires args != [] && AllFit(src, args, block)
    ensures Below(src, 1)
  {
    assert Fits(src, args[0], block || 0 < |args| - 1);
  }

  /**
    Print then parse: the driver gives back exactly the printed tree, and leaves the configuration
    the handlers make of it, if they follow the tree and every printed word stays below the buffer
    size; otherwise it does not give back that tree, and handlers that parse a block exactly when
    there is one make it reject the text. A parameter has no buffer, so there TreeFits always holds.
   */
  lemma TreeRoundTrip<St(!new)>(h: Handlers<St>, src: Source, mode: Mode, st: St, line: nat, ns: seq<Node>)
    requires mode != InBlock
    requires Below(src, 0) && Named(ns)
    ensures var p := ParseFrom(h, src, mode, st, line, PrintFile(ns));
            var f := Follow(h, mode, st, ns);
            if f.Some? && TreeFits(src, ns) then p == Parsed(ns, f.value, line + TreeLines(ns) + 1, [])
            else p.Rejected? || (!Orderly(h) && p.nodes != ns)
  {
    hide NextToken, PrintNodes, FollowNode, TreeFits, TreeLines, Orderly;
    ParsePrinted(h, src, mode, st, line, ns, [LF]);
    EndToken(src, line + TreeLines(ns));
    assert ns + [] == ns;
  }
}
