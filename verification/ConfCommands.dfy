/**
  The commands the program itself defines, worker_processes and http, as an instance of the
  directives of the driver, and exactly which configurations they accept.
 */
module ConfCommands {
  import opened Bytes
  import opened ConfScan
  import opened ConfPrint
  import opened ConfGrammar
  import opened ConfDispatch
  import opened ConfDriver
  import opened PoolRequests
  import Strings

  const WORKER_PROCESSES: Bytes := [119, 111, 114, 107, 101, 114, 95, 112, 114, 111, 99, 101, 115, 115, 101, 115]
  const HTTP: Bytes := [104, 116, 116, 112]
  const AUTO: Bytes := [97, 117, 116, 111]

  const CORE_MODULE: nat := 0x4552_4F43
  const UNSET := -1          // CW_CONF_UNSET
  const HTTP_CTX: nat := 24  // sizeof(cw_http_conf_ctx_t)

  /** What a module keeps its configuration in: cw_core_conf_t, or cw_http_conf_ctx_t. */
  datatype Record = CoreConf(workers: int) | HttpConf

  /** cf->ctx: the records its slots point to. A slot that is not there holds NULL. */
  datatype Slots = Slots(at: map<nat, Record>)

  /** The core module has made its record before anything is read. */
  type Settings = s: Slots | 0 in s.at && s.at[0].CoreConf? witness Slots(map[0 := CoreConf(UNSET)])

  const FRESH: Settings := Slots(map[0 := CoreConf(UNSET)])

  function Workers(st: Settings): int {
    st.at[0].workers
  }

  predicate HasHttp(st: Settings) {
    1 in st.at
  }

  /** The module list is made when the program is configured; the http module may be left out. */
  function Modules(http: bool): seq<Module> {
    [Module(CORE_MODULE, 0, 0, [Command(WORKER_PROCESSES, MAIN_CONF | DIRECT_CONF | ARGUMENT_NUMBER[1], 0)])]
    + if http then [Module(CORE_MODULE, 1, 0, [Command(HTTP, MAIN_CONF | CONF_BLOCK | ARGUMENT_NUMBER[0], 0)])] else []
  }

  /** cw_set_worker_processes: conf is taken as a pointer to a core record, and nothing else will do. */
  function SetWorkers(ncpu: nat, st: Settings, conf: ConfArg, word: Bytes): Reply<Settings> {
    if conf.Slot? && conf.index in st.at && st.at[conf.index].CoreConf? then
      if st.at[conf.index].workers != UNSET then Refuse
      else if Cut(word) == AUTO then Done(Slots(st.at[conf.index := CoreConf(ncpu)]))
      else if Strings.Number(word) == Strings.ERROR then Refuse
      else Done(Slots(st.at[conf.index := CoreConf(Strings.Number(word))]))
    else Refuse
  }

  /** cw_http_block: conf is taken as the address of a slot. It does not parse its block. */
  function HttpBlock(st: Settings, conf: ConfArg): Reply<Settings> {
    if conf.AddressOfSlot? && conf.index !in st.at then Done(Slots(st.at[conf.index := HttpConf])) else Refuse
  }

  /** The program's directives. */
  function Program(ncpu: nat, http: bool): Directives<Settings> {
    Directives(
      Modules(http),
      st => Context(CORE_MODULE, MAIN_CONF, true, at => false),
      (st, m, c, conf, args) =>
        if m == 0 then if |args| < 2 then Refuse else SetWorkers(ncpu, st, conf, args[1]) else HttpBlock(st, conf),
      st => false,
      (st, args) => Refuse,
      (st, args, block, st1) => None,
      (st: Settings, args: Args, block: bool) =>
        if block && !HasHttp(st) then [Zeroed(HTTP_CTX)] else [],
      (st, args, block, st1) => [])
  }

  /** The number of workers a word asks for: all processors, or a decimal number that fits. */
  ghost predicate IsCount(ncpu: nat, word: Bytes, n: int) {
    if Cut(word) == AUTO then n == ncpu else 0 <= n <= 2147483647 && Strings.Writes(word, n)
  }

  /** What becomes of a directive, in the terms of the configuration language. */
  ghost predicate Answered(ncpu: nat, http: bool, st: Settings, args: Args, block: bool, r: Reply<Settings>) {
    if SetsWorkers(args, block) then
      if Workers(st) == UNSET && Countable(args[1]) then
        && r.Done? && IsCount(ncpu, args[1], Workers(r.st)) && r.st.at == st.at[0 := r.st.at[0]]
      else r.Refuse?
    else if OpensHttp(http, args, block) then
      if HasHttp(st) then r.Refuse? else r.Done? && r.st.at == st.at[1 := HttpConf]
    else r.Refuse?
  }

  lemma NameIs(name: Bytes)
    ensures SameName(name, WORKER_PROCESSES) <==> name == WORKER_PROCESSES
    ensures SameName(name, HTTP) <==> name == HTTP
  {
    SameNameIsEquality(name, WORKER_PROCESSES);
    SameNameIsEquality(name, HTTP);
  }

  lemma Masks()
    ensures var w := MAIN_CONF | DIRECT_CONF | ARGUMENT_NUMBER[1];
            && Has(w, MAIN_CONF) && Has(w, DIRECT_CONF) && !Has(w, CONF_BLOCK)
            && forall n: nat :: n >= 1 ==> (ArityOk(w, n) <==> n == 2)
    ensures var w := MAIN_CONF | CONF_BLOCK | ARGUMENT_NUMBER[0];
            && Has(w, MAIN_CONF) && !Has(w, DIRECT_CONF) && Has(w, CONF_BLOCK)
            && forall n: nat :: n >= 1 ==> (ArityOk(w, n) <==> n == 1)
  {
  }

  predicate SetsWorkers(args: Args, block: bool) {
    |args| == 2 && args[0] == WORKER_PROCESSES && !block
  }

  predicate OpensHttp(http: bool, args: Args, block: bool) {
    http && args == [HTTP] && block
  }

  lemma ChosenIs(ncpu: nat, http: bool, st: Settings, args: Args, block: bool, m: nat, c: nat)
    requires args != []
    ensures Program(ncpu, http).Chosen(st, args, block, m, c) <==>
            c == 0 && ((m == 0 && SetsWorkers(args, block)) || (m == 1 && OpensHttp(http, args, block)))
  {
    hide SameName, Has, ArityOk;
    NameIs(args[0]);
    Masks();
    var d := Program(ncpu, http);
    assert WORKER_PROCESSES != HTTP by { assert |WORKER_PROCESSES| != |HTTP|; }
    if d.Chosen(st, args, block, m, c) {
      assert At(d.mods, m, c) && (m == 0 || m == 1) && c == 0;
      assert m == 1 && |args| == 1 ==> args == [args[0]];
    }
  }

  /** Which word asks for which number, in terms of the setter's own steps. */
  lemma CountIsNumber(ncpu: nat, word: Bytes, n: int)
    ensures IsCount(ncpu, word, n) <==>
            if Cut(word) == AUTO then n == ncpu else n != Strings.ERROR && n == Strings.Number(word)
    ensures Countable(word) <==> Cut(word) == AUTO || Strings.Number(word) != Strings.ERROR
    ensures Strings.Number(word) == Strings.ERROR || Strings.Number(word) >= 0
  {
    hide Strings.Number, Strings.Writes;
    Strings.NumberExactly(word, if n >= 0 then n else 0);
    if Strings.Number(word) != Strings.ERROR {
      Strings.NumberExactly(word, Strings.Number(word));
    }
    forall m: nat | m <= 2147483647 && Strings.Writes(word, m) ensures Strings.Number(word) == m {
      Strings.NumberExactly(word, m);
    }
  }

  lemma WorkersAreSet(ncpu: nat, http: bool, st: Settings, args: Args)
    requires SetsWorkers(args, false)
    ensures Answered(ncpu, http, st, args, false, SetWorkers(ncpu, st, Slot(0), args[1]))
  {
    hide Strings.Number, Strings.Writes, IsCount, Countable;
    var r := SetWorkers(ncpu, st, Slot(0), args[1]);
    CountIsNumber(ncpu, args[1], if r.Done? then Workers(r.st) else 0);
  }

  /**
    The search through the tables, the checks, the third argument and the setters together:
    worker_processes reaches the record of the core module, http fills the slot of its own.
   */
  lemma TakeIsAnswered(ncpu: nat, http: bool, st: Settings, args: Args, block: bool)
    requires args != []
    ensures Answered(ncpu, http, st, args, block, React(Program(ncpu, http).AsHandlers(), st, args, block))
  {
    hide SetWorkers, Directives.Chosen, IsCount, Countable;
    var d := Program(ncpu, http);
    forall m: nat, c: nat
      ensures d.Chosen(st, args, block, m, c) <==>
              c == 0 && ((m == 0 && SetsWorkers(args, block)) || (m == 1 && OpensHttp(http, args, block)))
    {
      ChosenIs(ncpu, http, st, args, block, m, c);
    }
    Masks();
    var cf := d.contextOf(st);
    if SetsWorkers(args, block) {
      d.TakesChosen(st, args, block, 0, 0);
      assert ConfOf(d.mods[0], d.mods[0].commands[0], cf) == Slot(0);
      WorkersAreSet(ncpu, http, st, args);
      assert d.TakeCommand(st, args, block) == SetWorkers(ncpu, st, Slot(0), args[1]);
    } else if OpensHttp(http, args, block) {
      d.TakesChosen(st, args, block, 1, 0);
      assert ConfOf(d.mods[1], d.mods[1].commands[0], cf) == AddressOfSlot(1);
      assert d.TakeCommand(st, args, block) == HttpBlock(st, AddressOfSlot(1));
      assert Answered(ncpu, http, st, args, block, HttpBlock(st, AddressOfSlot(1)));
    } else {
      assert d.TakeCommand(st, args, block) == Refuse;
    }
    assert !d.AsHandlers().custom(st) && d.AsHandlers().take(st, args, block) == d.TakeCommand(st, args, block);
  }

  // ---------------------------------------------------------------- which configurations are accepted

  /** A number of workers: "auto", or decimal digits that fit. */
  ghost predicate Countable(word: Bytes) {
    Cut(word) == AUTO || exists n: nat :: n <= 2147483647 && Strings.Writes(word, n)
  }

  /** A directive of the program, well written. */
  ghost predicate Sound(http: bool, inFile: bool, t: Tok) {
    || (t.code == Ok && |t.args| == 2 && t.args[0] == WORKER_PROCESSES && Countable(t.args[1]))
    || (http && inFile && t.code == BlockStart && t.args == [HTTP])
  }

  /**
    At most one worker_processes and at most one http, counting what is already set; nothing else,
    no closing brace, and the end of the text last.
   */
  ghost predicate Accepts(http: bool, inFile: bool, st: Settings, ts: seq<Tok>) {
    && ts != [] && ts[|ts| - 1].code == FileDone
    && (forall k :: 0 <= k < |ts| - 1 ==> Sound(http, inFile, ts[k]))
    && (forall k, l :: 0 <= k < l < |ts| - 1 ==> ts[k].code != ts[l].code)
    && (forall k :: 0 <= k < |ts| - 1 ==> if ts[k].code == Ok then Workers(st) == UNSET else !HasHttp(st))
  }

  lemma WorkersAnswer(ncpu: nat, http: bool, inFile: bool, st: Settings, t: Tok, r: Reply<Settings>)
    requires t.code == Ok && t.args != [] && Answered(ncpu, http, st, t.args, false, r)
    ensures r.Done? == (Sound(http, inFile, t) && Workers(st) == UNSET) && !r.Enter?
    ensures r.Done? ==>
              && IsCount(ncpu, t.args[1], Workers(r.st)) && Workers(r.st) != UNSET && HasHttp(r.st) == HasHttp(st)
  {
    hide Strings.Writes;
  }

  lemma HttpAnswer(ncpu: nat, http: bool, st: Settings, t: Tok, r: Reply<Settings>)
    requires t.code == BlockStart && t.args != [] && Answered(ncpu, http, st, t.args, true, r)
    ensures r.Done? == (Sound(http, true, t) && !HasHttp(st)) && !r.Enter?
    ensures r.Done? ==> Workers(r.st) == Workers(st) && HasHttp(r.st)
  {
  }

  /** One directive more at the front. */
  lemma {:induction false} AcceptsTail(http: bool, inFile: bool, st: Settings, st1: Settings, ts: seq<Tok>)
    requires |ts| > 1 && Sound(http, inFile, ts[0])
    requires if ts[0].code == Ok then
               Workers(st) == UNSET && Workers(st1) != UNSET && HasHttp(st1) == HasHttp(st)
             else !HasHttp(st) && HasHttp(st1) && Workers(st1) == Workers(st)
    ensures Accepts(http, inFile, st, ts) <==> Accepts(http, inFile, st1, ts[1..])
  {
    hide Sound;
    var us := ts[1..];
    assert us[|us| - 1] == ts[|ts| - 1];
    assert forall k :: 0 <= k < |us| ==> us[k] == ts[k + 1];
    if Accepts(http, inFile, st, ts) {
      forall k | 0 <= k < |us| - 1 ensures Sound(http, inFile, us[k]) && us[k].code != ts[0].code {
        assert Sound(http, inFile, ts[k + 1]) && ts[0].code != ts[k + 1].code;
      }
      forall k, l | 0 <= k < l < |us| - 1 ensures us[k].code != us[l].code {
        assert ts[k + 1].code != ts[l + 1].code;
      }
      SoundCodes(http, inFile, ts[0]);
      forall k | 0 <= k < |us| - 1 ensures if us[k].code == Ok then Workers(st1) == UNSET else !HasHttp(st1) {
        SoundCodes(http, inFile, us[k]);
      }
    }
    if Accepts(http, inFile, st1, us) {
      SoundCodes(http, inFile, ts[0]);
      forall k | 0 < k < |ts| - 1 ensures Sound(http, inFile, ts[k]) && ts[k].code != ts[0].code {
        assert Sound(http, inFile, us[k - 1]);
        SoundCodes(http, inFile, us[k - 1]);
      }
      forall k, l | 0 <= k < l < |ts| - 1 ensures ts[k].code != ts[l].code {
        if k > 0 { assert us[k - 1].code != us[l - 1].code; }
      }
    }
  }

  lemma SoundCodes(http: bool, inFile: bool, t: Tok)
    requires Sound(http, inFile, t)
    ensures t.code == Ok || t.code == BlockStart
  {
  }

  lemma {:induction false} WalkAccepts(ncpu: nat, http: bool, inFile: bool, st: Settings, ts: seq<Tok>)
    requires forall k :: 0 <= k < |ts| - 1 ==> !ts[k].code.Error? && !ts[k].code.FileDone?
    requires forall k :: 0 <= k < |ts| ==> (ts[k].args != [] <== ts[k].code in {Ok, BlockStart})
    ensures Walk(Program(ncpu, http).AsHandlers(), inFile, [], st, ts).Some? <==> Accepts(http, inFile, st, ts)
    decreases |ts|
  {
    hide Program, Answered, Sound, React;
    if ts != [] && (ts[0].code == Ok || ts[0].code == BlockStart) {
      var block := ts[0].code == BlockStart;
      TakeIsAnswered(ncpu, http, st, ts[0].args, block);
      var r := React(Program(ncpu, http).AsHandlers(), st, ts[0].args, block);
      if block {
        HttpAnswer(ncpu, http, st, ts[0], r);
        OnlyInFiles(http, inFile, ts[0]);
      } else {
        WorkersAnswer(ncpu, http, inFile, st, ts[0], r);
      }
      if |ts| > 1 {
        if r.Done? && (inFile || !block) {
          WalkAccepts(ncpu, http, inFile, r.st, ts[1..]);
          AcceptsTail(http, inFile, st, r.st, ts);
        }
      } else if r.Done? {
        assert ts[1..] == [];
      }
    } else if ts != [] {
      NotSound(http, inFile, ts[0]);
    }
  }

  lemma OnlyInFiles(http: bool, inFile: bool, t: Tok)
    requires t.code == BlockStart
    ensures Sound(http, inFile, t) <==> inFile && Sound(http, true, t)
  {
  }

  lemma NotSound(http: bool, inFile: bool, t: Tok)
    requires t.code != Ok && t.code != BlockStart
    ensures !Sound(http, inFile, t)
  {
  }

  /**
    The program accepts a file or a parameter, on top of the settings it has, exactly when the text
    is a list of its directives, each at most once, with no block ever closed.
   */
  lemma AcceptedExactly(ncpu: nat, http: bool, src: Source, mode: Mode, st: Settings, line: nat, data: Bytes)
    requires mode != InBlock
    ensures ParseFrom(Program(ncpu, http).AsHandlers(), src, mode, st, line, data).Parsed? <==>
            Accepts(http, mode == InFile, st, Tokens(src, line, data))
  {
    hide Program, Accepts, Walk;
    ParseIsWalk(Program(ncpu, http).AsHandlers(), src, mode, st, line, data);
    TokensShape(src, line, data);
    WalkAccepts(ncpu, http, mode == InFile, st, Tokens(src, line, data));
  }

  /** What an accepted list of directives leaves: the number its one worker_processes asks for, and http. */
  ghost predicate Settled(ncpu: nat, st: Settings, ts: seq<Tok>, st1: Settings) {
    && (forall k :: 0 <= k < |ts| && ts[k].code == Ok ==>
          |ts[k].args| == 2 && IsCount(ncpu, ts[k].args[1], Workers(st1)) && Workers(st1) != UNSET)
    && (Workers(st) != UNSET || !Sets(ts) ==> !Sets(ts) && Workers(st1) == Workers(st))
    && (HasHttp(st1) <==> HasHttp(st) || exists k :: 0 <= k < |ts| && ts[k].code == BlockStart)
  }

  lemma SettledTail(ncpu: nat, st: Settings, st1: Settings, ts: seq<Tok>, st2: Settings)
    requires ts != [] && Settled(ncpu, st1, ts[1..], st2)
    requires if ts[0].code == Ok then
               && |ts[0].args| == 2 && IsCount(ncpu, ts[0].args[1], Workers(st1))
               && Workers(st) == UNSET && Workers(st1) != UNSET && HasHttp(st1) == HasHttp(st)
             else ts[0].code == BlockStart && Workers(st1) == Workers(st) && HasHttp(st1)
    ensures Settled(ncpu, st, ts, st2)
  {
    hide IsCount;
    var us := ts[1..];
    assert forall k :: 0 <= k < |us| ==> us[k] == ts[k + 1];
    assert forall k :: 0 < k < |ts| ==> ts[k] == us[k - 1];
  }

  lemma {:induction false} WalkSettles(ncpu: nat, http: bool, inFile: bool, st: Settings, ts: seq<Tok>)
    requires forall k :: 0 <= k < |ts| - 1 ==> !ts[k].code.Error? && !ts[k].code.FileDone?
    requires forall k :: 0 <= k < |ts| ==> (ts[k].args != [] <== ts[k].code in {Ok, BlockStart})
    ensures var w := Walk(Program(ncpu, http).AsHandlers(), inFile, [], st, ts);
            w.Some? ==> Settled(ncpu, st, ts, w.value)
    decreases |ts|
  {
    hide Program, Answered, React, Settled, IsCount, Countable;
    if ts != [] && (ts[0].code == Ok || ts[0].code == BlockStart) {
      var block := ts[0].code == BlockStart;
      TakeIsAnswered(ncpu, http, st, ts[0].args, block);
      var r := React(Program(ncpu, http).AsHandlers(), st, ts[0].args, block);
      if block {
        HttpAnswer(ncpu, http, st, ts[0], r);
      } else {
        WorkersAnswer(ncpu, http, inFile, st, ts[0], r);
      }
      if r.Done? && (inFile || !block) {
        WalkSettles(ncpu, http, inFile, r.st, ts[1..]);
        var w := Walk(Program(ncpu, http).AsHandlers(), inFile, [], r.st, ts[1..]);
        if w.Some? {
          SettledTail(ncpu, st, r.st, ts, w.value);
        }
      }
    } else if ts != [] && ts[0].code == FileDone {
      NothingSettled(ncpu, st, ts);
    }
  }

  lemma NothingSettled(ncpu: nat, st: Settings, ts: seq<Tok>)
    requires |ts| == 1 && ts[0].code != Ok && ts[0].code != BlockStart
    ensures Settled(ncpu, st, ts, st)
  {
  }

  /** An accepted text leaves the number that its one worker_processes asks for, if it has one. */
  lemma ValueIsSet(ncpu: nat, http: bool, src: Source, mode: Mode, st: Settings, line: nat, data: Bytes)
    requires mode != InBlock
    ensures var p := ParseFrom(Program(ncpu, http).AsHandlers(), src, mode, st, line, data);
            p.Parsed? ==> Settled(ncpu, st, Tokens(src, line, data), p.st)
  {
    hide Program, Walk, Settled;
    ParseIsWalk(Program(ncpu, http).AsHandlers(), src, mode, st, line, data);
    TokensShape(src, line, data);
    WalkSettles(ncpu, http, mode == InFile, st, Tokens(src, line, data));
  }

  // ---------------------------------------------------------------- consequences

  /** The text ends a directive with ";". */
  ghost predicate Sets(ts: seq<Tok>) {
    exists k :: 0 <= k < |ts| && ts[k].code == Ok
  }

  /**
    The -g parameter, then the file: the file is accepted exactly when it is acceptable by itself
    and does not set worker_processes after the parameter has.
   */
  lemma SetOnceInBoth(ncpu: nat, http: bool, param: Bytes, text: Bytes)
    requires ParseFrom(Program(ncpu, http).AsHandlers(), Source(None, false), InParam, FRESH, 0, param).Parsed?
    ensures var h := Program(ncpu, http).AsHandlers();
            var st := ParseFrom(h, Source(None, false), InParam, FRESH, 0, param).st;
            var ts := Tokens(Source(Some(CONF_BUFFER), true), 1, text);
            ParseFrom(h, Source(Some(CONF_BUFFER), true), InFile, st, 1, text).Parsed? <==>
            Accepts(http, true, FRESH, ts) && !(Sets(Tokens(Source(None, false), 0, param)) && Sets(ts))
  {
    hide Program, Walk, Tokens, Sound, ParseFrom;
    var h := Program(ncpu, http).AsHandlers();
    var src, file := Source(None, false), Source(Some(CONF_BUFFER), true);
    var ps, ts := Tokens(src, 0, param), Tokens(file, 1, text);
    ParseIsWalk(h, src, InParam, FRESH, 0, param);
    TokensShape(src, 0, param);
    TokensShape(file, 1, text);
    AcceptedExactly(ncpu, http, src, InParam, FRESH, 0, param);
    forall k | 0 <= k < |ps| ensures ps[k].code != BlockStart {
      if k < |ps| - 1 { NoBlockHere(http, ps[k]); }
    }
    WalkSettles(ncpu, http, false, FRESH, ps);
    AcceptedExactly(ncpu, http, file, InFile, ParseFrom(h, src, InParam, FRESH, 0, param).st, 1, text);
  }

  lemma NoBlockHere(http: bool, t: Tok)
    requires Sound(http, false, t)
    ensures t.code == Ok
  {
  }

  /** A closing brace anywhere is one too many, also the one of "http { }": nothing parses the block. */
  lemma ClosedBlockIsRefused(
      ncpu: nat, http: bool, src: Source, mode: Mode, st: Settings, line: nat, data: Bytes, k: nat)
    requires mode != InBlock && k < |Tokens(src, line, data)| && Tokens(src, line, data)[k].code == BlockDone
    ensures ParseFrom(Program(ncpu, http).AsHandlers(), src, mode, st, line, data) == Rejected
  {
    hide Program, Tokens, ParseFrom;
    AcceptedExactly(ncpu, http, src, mode, st, line, data);
    var ts := Tokens(src, line, data);
    if k < |ts| - 1 { NotSound(http, mode == InFile, ts[k]); }
  }

  /** So every printed tree with a block is refused. */
  lemma PrintedBlockIsRefused(ncpu: nat, http: bool, src: Source, st: Settings, line: nat, ns: seq<Node>, k: nat)
    requires Named(ns) && Below(src, 0) && TreeFits(src, ns) && k < |ns| && ns[k].Nest?
    ensures ParseFrom(Program(ncpu, http).AsHandlers(), src, InFile, st, line, PrintFile(ns)) == Rejected
  {
    hide Program, ParseFrom, PrintNodes, TreeFits, Tokens;
    PrintedTokens(src, line, ns);
    var l := BlockCloses(ns, k);
    ClosedBlockIsRefused(ncpu, http, src, InFile, st, line, PrintFile(ns), l);
  }

  lemma {:induction false} BlockCloses(ns: seq<Node>, k: nat) returns (l: nat)
    requires k < |ns| && ns[k].Nest?
    ensures l < |TreeTokens(ns)| && TreeTokens(ns)[l].code == BlockDone
    decreases k
  {
    if k == 0 {
      l := |NodeTokens(ns[0])| - 1;
    } else {
      l := BlockCloses(ns[1..], k - 1);
      l := l + |NodeTokens(ns[0])|;
    }
  }

  /** But "http {" with nothing to close it is accepted, once. */
  lemma OpenBlockIsAccepted(ncpu: nat, src: Source, st: Settings, line: nat)
    requires !HasHttp(st) && (src.limit.Some? ==> src.limit.value > 5)
    ensures var text := [LF] + PrintHead([HTTP], true) + [LF];
            ParseFrom(Program(ncpu, true).AsHandlers(), src, InFile, st, line, text).Parsed?
  {
    hide Program, ParseFrom, Tokens, PrintHead;
    HttpFits(src);
    TokensOfHead(src, line, [HTTP], true, [LF]);
    EndToken(src, line + 1);
    LastToken(src, line + 1);
    AcceptedExactly(ncpu, true, src, InFile, st, line, [LF] + PrintHead([HTTP], true) + [LF]);
  }

  lemma HttpFits(src: Source)
    requires src.limit.Some? ==> src.limit.value > 5
    ensures AllFit(src, [HTTP], true)
  {
    assert BareSafe(HTTP);
  }

  /** A directive that fills a slot has taken the memory for the record from the pool, three pointers of zeros. */
  lemma FillingTakesMemory(ncpu: nat, http: bool, st: Settings, args: Args, block: bool)
    requires args != []
    ensures var d := Program(ncpu, http);
            var r := React(d.AsHandlers(), st, args, block);
            r.Done? ==> d.asks(st, args, block) == if r.st.at.Keys == st.at.Keys then [] else [Zeroed(24)]
  {
    hide React, IsCount, Countable;
    TakeIsAnswered(ncpu, http, st, args, block);
    var r := React(Program(ncpu, http).AsHandlers(), st, args, block);
    if r.Done? {
      if block {
        assert 1 in r.st.at.Keys;
      } else {
        assert r.st.at.Keys == st.at.Keys + {0};
      }
    }
  }

  // ---------------------------------------------------------------- which number is set

  lemma CountIsOne(ncpu: nat, word: Bytes, n: int, m: int)
    requires IsCount(ncpu, word, n) && IsCount(ncpu, word, m)
    ensures n == m
  {
    hide Strings.Number, Strings.Writes;
    CountIsNumber(ncpu, word, n);
    CountIsNumber(ncpu, word, m);
  }

  /** One printed worker_processes, in a file or a parameter, on top of settings that have no number yet. */
  lemma PrintedCount(ncpu: nat, http: bool, src: Source, mode: Mode, st: Settings, line: nat, word: Bytes, n: int)
    requires mode != InBlock && Workers(st) == UNSET && Countable(word) && IsCount(ncpu, word, n)
    requires Below(src, 0) && AllFit(src, [WORKER_PROCESSES, word], false)
    ensures var text := [LF] + PrintHead([WORKER_PROCESSES, word], false) + [LF];
            var p := ParseFrom(Program(ncpu, http).AsHandlers(), src, mode, st, line, text);
            p.Parsed? && Workers(p.st) == n && HasHttp(p.st) == HasHttp(st)
  {
    hide Program, ParseFrom, Tokens, PrintHead, AllFit, IsCount, Countable;
    var args := [WORKER_PROCESSES, word];
    var text := [LF] + PrintHead(args, false) + [LF];
    TokensOfHead(src, line, args, false, [LF]);
    EndToken(src, line + 1);
    LastToken(src, line + 1);
    var ts := Tokens(src, line, text);
    assert ts == [Tok(Ok, args), Tok(FileDone, [])];
    AcceptedExactly(ncpu, http, src, mode, st, line, text);
    assert Sound(http, mode == InFile, ts[0]);
    var p := ParseFrom(Program(ncpu, http).AsHandlers(), src, mode, st, line, text);
    ValueIsSet(ncpu, http, src, mode, st, line, text);
    assert ts[0].code == Ok && IsCount(ncpu, ts[0].args[1], Workers(p.st));
    CountIsOne(ncpu, word, n, Workers(p.st));
  }

  /** A number in decimal is the number that is set; "auto" sets the number of processors. */
  lemma NumberIsSet(ncpu: nat, http: bool, src: Source, mode: Mode, st: Settings, line: nat, n: nat)
    requires mode != InBlock && Workers(st) == UNSET && Below(src, 0) && n <= 2147483647
    ensures var h := Program(ncpu, http).AsHandlers();
            var number, auto := [WORKER_PROCESSES, Strings.Decimal(n)], [WORKER_PROCESSES, AUTO];
            && (AllFit(src, number, false) ==>
                  var p := ParseFrom(h, src, mode, st, line, [LF] + PrintHead(number, false) + [LF]);
                  p.Parsed? && Workers(p.st) == n)
            && (AllFit(src, auto, false) ==>
                  var p := ParseFrom(h, src, mode, st, line, [LF] + PrintHead(auto, false) + [LF]);
                  p.Parsed? && Workers(p.st) == ncpu)
  {
    hide Program, ParseFrom, PrintHead, AllFit;
    var word := Strings.Decimal(n);
    DecimalIsCount(ncpu, n);
    assert Cut(AUTO) == AUTO;
    if AllFit(src, [WORKER_PROCESSES, word], false) {
      PrintedCount(ncpu, http, src, mode, st, line, word, n);
    }
    if AllFit(src, [WORKER_PROCESSES, AUTO], false) {
      PrintedCount(ncpu, http, src, mode, st, line, AUTO, ncpu);
    }
  }

  lemma DecimalIsCount(ncpu: nat, n: nat)
    requires n <= 2147483647
    ensures IsCount(ncpu, Strings.Decimal(n), n) && Countable(Strings.Decimal(n))
  {
    hide Cut;
    var word := Strings.Decimal(n);
    Strings.DecimalValue(n);
    assert Strings.Zeros(0) + word == word;
    assert Strings.Writes(word, n);
    assert Strings.IsDigit(word[0]);
    CutBegins(word);
  }

  lemma CutBegins(s: Bytes)
    requires s != []
    ensures Cut(s) == [] || Cut(s)[0] == s[0]
  {
  }
}
