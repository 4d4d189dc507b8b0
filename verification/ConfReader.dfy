/**
  cw_conf_read_token over its sliding buffer: a byte at a time from a buffer that is refilled
  from the file, with the held bytes moved to the front. Proved against the unbuffered scanner.
 */
module ConfReader {
  import opened Bytes
  import opened ConfEscape
  import opened ConfScan
  import opened Files
  import opened ConfArgs

  /** The local variables of cw_conf_read_token. */
  datatype Locals = Locals(f: Flags, start: nat, startLine: nat)

  /** The scanner state those variables stand for, with the bytes from `start` on. */
  function View(v: Locals, held: Bytes, line: nat, ws: seq<Bytes>): Scanner {
    Scanner(v.f, held, v.startLine, line, ws)
  }

  /** The bytes from r.start on, when v.start was before the bytes held and ch has just been read. */
  ghost predicate HeldFrom(v: Locals, r: Locals, pos: nat, held: Bytes, ch: byte, held': Bytes) {
    || (r.start == v.start && held' == held + [ch])
    || (r.start == pos - 1 && held' == [ch])
    || (r.start == pos && held' == [])
  }

  /** The switch on the first byte of a word or comment. */
  method StartAWord(v: Locals, ch: byte, ghost line: nat, ghost ws: seq<Bytes>) returns (r: Locals)
    ensures var s := StartWord(View(v, [ch], line, ws), ch);
            s == View(r, s.held, line, ws) && r.start == v.start + (1 - |s.held|) && (s.held == [] || s.held == [ch])
  {
    if ch == HASH {
      r := v.(f := v.f.(sharp := true));
    } else if ch == BACKSLASH {
      r := v.(f := v.f.(quoted := true, lastSpace := false));
    } else if ch == DQUOTE {
      r := v.(start := v.start + 1, f := v.f.(dQuoted := true, lastSpace := false));
    } else if ch == SQUOTE {
      r := v.(start := v.start + 1, f := v.f.(sQuoted := true, lastSpace := false));
    } else {
      r := v.(f := v.f.(lastSpace := false));
    }
  }

  /** The branch for last_space: white space, a terminator, or the start of a word or comment. */
  method OutsideWord(v: Locals, ch: byte, pos: nat, line: nat, noArgs: bool, ghost held: Bytes, ghost ws: seq<Bytes>)
    returns (r: Locals, stop: Option<Code>)
    requires pos >= 1 && noArgs == (ws == [])
    ensures r.start == v.start || r.start == pos - 1 || r.start == pos
    ensures var n := BetweenWords(View(v, held, line, ws), ch);
            if n.Stop? then stop == Some(n.code) && n.line == line && n.args == ws
            else stop == None && HeldFrom(v, r, pos, held, ch, n.s.held) && n.s == View(r, n.s.held, line, ws)
  {
    hide StartWord;
    r, stop := v, None;
    if ch == SPACE || ch == TAB || ch == CR || ch == LF {
      return;
    }
    r := r.(start := pos - 1, startLine := line);
    if ch == SEMI || ch == LBRACE {
      if noArgs {
        stop := Some(Error(UnexpectedByte(ch)));
      } else if ch == LBRACE {
        stop := Some(BlockStart);
      } else {
        stop := Some(Ok);
      }
    } else if ch == RBRACE {
      if !noArgs {
        stop := Some(Error(UnexpectedByte(ch)));
      } else {
        stop := Some(BlockDone);
      }
    } else {
      r := StartAWord(r, ch, line, ws);
    }
  }

  /** The branch inside a word, up to the point where `found` says that the word has ended. */
  method InsideAWord(v: Locals, ch: byte, ghost held: Bytes, ghost line: nat, ghost ws: seq<Bytes>)
    returns (r: Locals, found: bool)
    ensures r.start == v.start
    ensures var n := InWord(View(v, held, line, ws), ch);
            var ws' := if found then ws + [Unescape(held)] else ws;
            if n.More? then n.s == View(r, held + [ch], line, ws') && !(found && (ch == SEMI || ch == LBRACE))
            else found && n == Stop(if ch == SEMI then Ok else BlockStart, line, ws') && (ch == SEMI || ch == LBRACE)
  {
    hide Unescape;
    r, found := v, false;
    if ch == LBRACE && r.f.variable {
      return;
    }
    r := r.(f := r.f.(variable := false));
    if ch == BACKSLASH {
      r := r.(f := r.f.(quoted := true));
      return;
    }
    if ch == DOLLAR {
      r := r.(f := r.f.(variable := true));
      return;
    }
    if r.f.dQuoted {
      if ch == DQUOTE {
        r, found := r.(f := r.f.(dQuoted := false, needSpace := true)), true;
      }
    } else if r.f.sQuoted {
      if ch == SQUOTE {
        r, found := r.(f := r.f.(sQuoted := false, needSpace := true)), true;
      }
    } else if ch == SPACE || ch == TAB || ch == CR || ch == LF || ch == SEMI || ch == LBRACE {
      r, found := r.(f := r.f.(lastSpace := true)), true;
    }
  }

  /** The part of the loop before that: comments, an escaped byte, the byte behind a closing quote. */
  method Before(v: Locals, ch: byte, ghost held: Bytes, line: nat, ghost ws: seq<Bytes>)
    returns (r: Locals, line': nat, done: bool, stop: Option<Code>)
    ensures r.start == v.start
    ensures var n := Step(View(v, held, line, ws), ch);
            if stop.Some? then n == Stop(stop.value, line', ws)
            else if done then n == More(View(r, held + [ch], line', ws))
            else
              && !r.f.needSpace
              && (r.f.lastSpace || (!v.f.needSpace && !v.f.lastSpace && !v.f.quoted))
              && n == if r.f.lastSpace then BetweenWords(View(r, held, line', ws), ch)
                      else InWord(View(r, held, line', ws), ch)
  {
    hide InWord, BetweenWords;
    r, line', done, stop := v, line, false, None;
    if ch == LF {
      line' := line' + 1;
      if r.f.sharp {
        r := r.(f := r.f.(sharp := false));
      }
    }
    if r.f.sharp {
      done := true;
    } else if r.f.quoted {
      r, done := r.(f := r.f.(quoted := false)), true;
    } else if r.f.needSpace {
      if ch == SPACE || ch == TAB || ch == CR || ch == LF {
        r, done := r.(f := r.f.(lastSpace := true, needSpace := false)), true;
      } else if ch == SEMI {
        stop := Some(Ok);
      } else if ch == LBRACE {
        stop := Some(BlockStart);
      } else if ch == RPAREN {
        r := r.(f := r.f.(lastSpace := true, needSpace := false));
      } else {
        stop := Some(Error(UnexpectedByte(ch)));
      }
    }
  }

  /** cw_conf_file_t with its cw_buf_t. In a parameter (no file) the buffer is the parameter itself. */
  class Reader {
    const buf: array<byte>
    const lent: int        // where the host has lent the buffer of a file
    const isFile: bool
    const file: File
    var pos: nat
    var last: nat
    var line: nat

    ghost predicate Valid()
      reads this, file
    {
      && pos <= last <= buf.Length && file.InOrder()
      && (if isFile then buf.Length >= 1 else file.data == [])
    }

    /** The bytes still unread, in the buffer and in the file. */
    ghost function Rest(): Bytes
      requires Valid()
      reads this, file, buf
    {
      buf[pos..last] + file.data[file.offset..]
    }

    /** A parameter, which is its own buffer and is never written. */
    ghost function Param(): Bytes
      reads buf
    {
      if isFile then [] else buf[..]
    }

    ghost function Src(): Source {
      Source(if isFile then Some(buf.Length) else None, isFile)
    }

    /** The buffer of a file is memory that the host has lent for it, all of it, and not got back. */
    ghost predicate Lent(host: map<int, nat>) {
      isFile ==> lent in host && buf.Length <= host[lent]
    }

    /** The set-up in cw_conf_parse: an empty buffer of b bytes, lent at `lent`, before an open file. */
    constructor OpenFile(file: File, lent: int, b: nat)
      requires b >= 1 && file.InOrder() && file.offset == 0
      ensures Valid() && isFile && this.lent == lent && buf.Length == b && fresh(buf) && this.file == file && line == 1
      ensures Rest() == file.data
    {
      this.file, this.lent, isFile := file, lent, true;
      buf := new byte[b];
      pos, last, line := 0, 0, 1;
    }

    /** The set-up in cw_conf_param: the parameter is the buffer and there is no file. */
    constructor OpenParam(param: array<byte>, none: File)
      requires none.data == [] && none.InOrder()
      ensures Valid() && !isFile && buf == param && this.file == none && line == 0
      ensures Rest() == param[..]
    {
      this.file, lent, isFile := none, 0, false;
      buf := param;
      pos, last, line := 0, param.Length, 0;
    }

    /** cw_memmove: the held bytes move to the front of the buffer. */
    method MoveHeld(start: nat)
      requires start <= pos <= buf.Length
      modifies buf
      ensures buf[..pos - start] == old(buf[start..pos])
    {
      forall i | 0 <= i < pos - start {
        buf[i] := buf[start + i];
      }
    }

    /**
      The refill: the held bytes move to the front and the file fills the rest of the buffer.
      At least one byte arrives, and neither the held nor the unread bytes change.
     */
    method Refill(start: nat, ghost host: map<int, nat>) returns (ok: bool)
      requires Lent(host)
      requires Valid() && start <= pos == last && file.offset < |file.data| && pos - start < buf.Length
      modifies this`pos, this`last, buf, file
      ensures Valid() && |Rest()| <= |old(Rest())| && Param() == old(Param())
      ensures file.failed >= old(file.failed) && (!ok <==> file.failed > old(file.failed))
      ensures ok ==> pos == old(pos) - start && pos < last && buf[..pos] == old(buf[start..pos])
      ensures ok ==> Rest() == old(Rest())
    {
      hide File.Settled;
      var len := pos - start;
      MoveHeld(start);
      var size := |file.data| - file.offset;
      if size > buf.Length - len {
        size := buf.Length - len;
      }
      ghost var from := file.offset;
      var n := file.ReadNext(buf, len, size);
      if n != size {
        return false;
      }
      pos := len;
      last := pos + n;
      assert buf[pos..last] == file.data[from..file.offset];
      assert file.data[from..] == file.data[from..file.offset] + file.data[file.offset..];
      ok := true;
    }

    /** The head of the loop, when the buffer is used up: the end of the source, the full buffer, or a refill. */
    method Fill(v: Locals, noArgs: bool, ghost ws: seq<Bytes>, ghost host: map<int, nat>)
      returns (r: Locals, stop: Option<Code>)
      requires Lent(host)
      requires Valid() && pos == last && v.start <= pos && noArgs == (ws == [])
      modifies this`pos, this`last, this`line, buf, file
      ensures Valid() && |Rest()| <= |old(Rest())| && Param() == old(Param()) && stop != Some(Error(NoMemory))
      ensures file.failed >= old(file.failed)
      ensures stop == Some(Error(ReadFailed)) <==> file.failed > old(file.failed)
      ensures stop == Some(Error(ReadFailed)) ==> isFile
      ensures stop.Some? && stop != Some(Error(ReadFailed)) ==>
                var s := View(v, old(buf[v.start..pos]), old(line), ws);
                ScanToken(Src(), s, old(Rest())) == Token(stop.value, ws, line, Rest())
      ensures stop.None? ==>
                && r == v.(start := 0) && pos < last && line == old(line) && Rest() == old(Rest())
                && buf[..pos] == old(buf[v.start..pos]) && (isFile ==> old(pos) - v.start < buf.Length)
    {
      hide ScanToken, Reader.Param;
      r, stop := v.(start := 0), None;
      NoMoreBytes(Src(), View(v, buf[v.start..pos], line, ws), Rest());
      if file.offset >= |file.data| {
        if !noArgs || !v.f.lastSpace {
          stop := Some(Error(if isFile then UnexpectedEndOfFile else UnexpectedEndOfParam));
        } else {
          stop := Some(FileDone);
        }
        return;
      }
      if pos - v.start == buf.Length {
        line := v.startLine;
        stop := Some(Error(if v.f.dQuoted then MissingTerminator(DQUOTE)
                           else if v.f.sQuoted then MissingTerminator(SQUOTE) else TooLong));
        return;
      }
      var ok := Refill(v.start, host);
      if !ok {
        stop := Some(Error(ReadFailed));
      }
    }

    /** The head of the loop, and then one byte. */
    method Fetch(v: Locals, noArgs: bool, ghost ws: seq<Bytes>, ghost host: map<int, nat>)
      returns (r: Locals, ch: byte, stop: Option<Code>)
      requires Lent(host)
      requires Valid() && v.start <= pos && noArgs == (ws == [])
      modifies this`pos, this`last, this`line, buf, file
      ensures Valid() && |Rest()| <= |old(Rest())| && Param() == old(Param()) && stop != Some(Error(NoMemory))
      ensures file.failed >= old(file.failed)
      ensures stop == Some(Error(ReadFailed)) <==> file.failed > old(file.failed)
      ensures stop == Some(Error(ReadFailed)) ==> isFile
      ensures stop.Some? && stop != Some(Error(ReadFailed)) ==>
                var s := View(v, old(buf[v.start..pos]), old(line), ws);
                ScanToken(Src(), s, old(Rest())) == Token(stop.value, ws, line, Rest())
      ensures stop.None? ==>
                && r == v.(start := r.start) && r.start < pos && line == old(line)
                && buf[r.start..pos - 1] == old(buf[v.start..pos]) && buf[pos - 1] == ch && old(Rest()) == [ch] + Rest()
                && (isFile ==> old(pos) - v.start < buf.Length)
    {
      hide ScanToken, Reader.Param, Reader.Lent;
      r, ch, stop := v, 0, None;
      if pos >= last {
        r, stop := Fill(v, noArgs, ws, host);
        if stop.Some? {
          return;
        }
      }
      ghost var rest, left := Rest(), file.data[file.offset..];
      ch := buf[pos];
      assert buf[pos..last] == [ch] + buf[pos + 1..last];
      pos := pos + 1;
      assert rest == [ch] + (buf[pos..last] + left);
    }

    /** Reader and list share nothing, and the host holds the buffer besides the pool of the list. */
    ghost predicate Apart(list: ArgList)
      reads list
    {
      this !in list.Repr && buf !in list.Repr && file !in list.Repr && Lent(list.others)
    }

    /** How often the host has refused the list's pool a request, and the system has failed the file. */
    ghost function Troubles(list: ArgList): nat
      reads file, list.args.pool.host
    {
      list.args.pool.host.refused + if isFile then file.failed else 0
    }

    /** The state variables and the held bytes, as a scanner state. */
    ghost function State(v: Locals, ws: seq<Bytes>): Scanner
      requires v.start <= pos <= buf.Length
      reads this, buf
    {
      View(v, buf[v.start..pos], line, ws)
    }

    /** One byte through the flags; `found` says that a word has just ended. */
    method Feed(v: Locals, ch: byte, noArgs: bool, ghost ws: seq<Bytes>)
      returns (r: Locals, found: bool, stop: Option<Code>)
      requires 1 <= pos <= buf.Length && v.start < pos && noArgs == (ws == []) && buf[pos - 1] == ch
      modifies this`line
      ensures r.start <= pos
      ensures var held := buf[v.start..pos - 1];
              var n := Step(View(v, held, old(line), ws), ch);
              var ws' := if found then ws + [Unescape(held)] else ws;
              && (found ==> r.start == v.start && !v.f.needSpace && !v.f.lastSpace && !v.f.quoted)
              && if n.More? then stop == None && n.s == State(r, ws')
                 else stop == Some(n.code) && n == Stop(n.code, line, ws')
    {
      hide Step, InWord, BetweenWords, Unescape;
      ghost var held := buf[v.start..pos - 1];
      assert buf[v.start..pos] == held + [ch];
      found := false;
      var done;
      r, line, done, stop := Before(v, ch, held, line, ws);
      if stop.Some? || done {
        return;
      }
      if r.f.lastSpace {
        ghost var u := r;
        r, stop := OutsideWord(r, ch, pos, line, noArgs, held, ws);
        assert buf[pos - 1..pos] == [ch] && buf[pos..pos] == [];
      } else {
        r, found := InsideAWord(r, ch, held, line, ws);
        if found {
          if ch == SEMI {
            stop := Some(Ok);
          } else if ch == LBRACE {
            stop := Some(BlockStart);
          }
        }
      }
    }

    ghost function Extended(v: Locals, found: bool, ws: seq<Bytes>): seq<Bytes>
      requires found ==> v.start <= pos - 1 < buf.Length
      reads this, buf
    {
      if found then ws + [Unescape(buf[v.start..pos - 1])] else ws
    }

    /** The byte just handed out, through the flags: what the scanner makes of it and of the bytes behind it. */
    method Digest(v: Locals, ch: byte, noArgs: bool, ghost ws: seq<Bytes>, ghost s: Scanner)
      returns (r: Locals, found: bool, stop: Option<Code>)
      requires Valid() && 1 <= pos && v.start < pos && noArgs == (ws == []) && buf[pos - 1] == ch
      requires s == View(v, buf[v.start..pos - 1], line, ws) && Wf(s) && (isFile ==> |s.held| < buf.Length)
      modifies this`line
      ensures Valid() && Rest() == old(Rest())
      ensures r.start <= pos && (found ==> r.start <= pos - 1 && Paired(buf[r.start..pos - 1]))
      ensures stop !in {Some(Error(ReadFailed)), Some(Error(NoMemory))}
      ensures var t := ScanToken(Src(), s, [ch] + Rest());
              var ws' := Extended(r, found, ws);
              if stop.Some? then t == Token(stop.value, ws', line, Rest())
              else t == ScanToken(Src(), State(r, ws'), Rest()) && Wf(State(r, ws'))
    {
      hide Wf, Paired, Unescape, ScanToken, Step;
      Unfold(Src(), s, ch, Rest());
      r, found, stop := Feed(v, ch, noArgs, ws);
      if found {
        HeldIsPaired(s);
        assert buf[r.start..pos - 1] == s.held;
      }
    }

    /** One turn of the loop but for the end of a word, which is left to the caller. */
    method Turn(v: Locals, noArgs: bool, ghost ws: seq<Bytes>, ghost host: map<int, nat>)
      returns (r: Locals, found: bool, stop: Option<Code>)
      requires Lent(host)
      requires Valid() && v.start <= pos && Wf(State(v, ws)) && noArgs == (ws == [])
      modifies this`pos, this`last, this`line, buf, file
      ensures Valid() && |Rest()| <= |old(Rest())| && (stop.None? ==> |Rest()| < |old(Rest())|)
      ensures Param() == old(Param()) && stop != Some(Error(NoMemory))
      ensures r.start <= pos && (found ==> r.start <= pos - 1 && Paired(buf[r.start..pos - 1]))
      ensures file.failed >= old(file.failed)
      ensures stop == Some(Error(ReadFailed)) <==> file.failed > old(file.failed)
      ensures stop == Some(Error(ReadFailed)) ==> isFile
      ensures stop != Some(Error(ReadFailed)) ==>
                var t := ScanToken(Src(), old(State(v, ws)), old(Rest()));
                var ws' := Extended(r, found, ws);
                if stop.Some? then t == Token(stop.value, ws', line, Rest())
                else t == ScanToken(Src(), State(r, ws'), Rest()) && Wf(State(r, ws'))
    {
      hide Wf, Paired, Unescape, ScanToken, Step, Reader.Param, Reader.Lent, Reader.Rest, Reader.Src;
      ghost var s0 := State(v, ws);
      var ch;
      found := false;
      r, ch, stop := Fetch(v, noArgs, ws, host);
      if stop.Some? {
        r := r.(start := pos);
        return;
      }
      r, found, stop := Digest(r, ch, noArgs, ws, s0);
    }

    lemma InitState(v: Locals)
      requires Valid() && v == Locals(Flags(false, true, false, false, false, false, false), pos, line)
      ensures State(v, []) == Init(line) && Wf(Init(line))
    {
      assert buf[pos..pos] == [];
    }

    /** At a loop head: the words so far are in memory, and the flags and held bytes are a state of the scanner. */
    ghost predicate AtHead(list: ArgList, v: Locals, ws: seq<Bytes>)
      reads this, file, buf, list, list.Repr
    {
      Valid() && list.Holds(ws) && Apart(list) && v.start <= pos && Wf(State(v, ws))
    }

    /** What the scanner makes of the bytes from a loop head on. */
    ghost function FromHere(v: Locals, ws: seq<Bytes>): Token
      requires Valid() && v.start <= pos
      reads this, file, buf
    {
      ScanToken(Src(), State(v, ws), Rest())
    }

    /** One turn of the loop, with the end of a word if there is one. */
    method Round(list: ArgList, v: Locals, ghost ws: seq<Bytes>)
      returns (r: Locals, stop: Option<Code>, ghost ws': seq<Bytes>)
      requires AtHead(list, v, ws)
      modifies this`pos, this`last, this`line, buf, file, list.Repr
      ensures Valid() && list.Valid() && Apart(list) && fresh(list.Repr - old(list.Repr)) && |Rest()| <= |old(Rest())|
      ensures Param() == old(Param()) && list.others == old(list.others) && Troubles(list) >= old(Troubles(list))
      ensures stop == Some(Error(NoMemory)) || stop == Some(Error(ReadFailed)) <==> Troubles(list) > old(Troubles(list))
      ensures stop.None? ==> AtHead(list, r, ws') && |Rest()| < |old(Rest())|
      ensures stop.None? ==> FromHere(r, ws') == old(FromHere(v, ws))
      ensures stop.Some? && stop != Some(Error(NoMemory)) && stop != Some(Error(ReadFailed)) ==>
                list.Holds(ws') && old(FromHere(v, ws)) == Token(stop.value, ws', line, Rest())
    {
      hide Wf, Paired, Unescape, ScanToken, Step, ArgList.Valid, ArgList.Holds;
      hide Reader.Rest, Reader.Param, Reader.State;
      ws' := ws;
      var n := list.Count(ws);
      var found;
      r, found, stop := Turn(v, n == 0, ws, list.others);
      if found {
        var ok := list.PushWord(buf, r.start, pos - 1, ws);
        if !ok {
          stop := Some(Error(NoMemory));
          return;
        }
        ws' := ws + [Unescape(buf[r.start..pos - 1])];
      }
    }

    /**
      cw_conf_read_token. Whatever the buffer size and however the file falls into it, the call
      returns what the unbuffered scanner returns for the bytes still unread: the same code, the
      same line, the same arguments in memory, and the same bytes left for the next call.
     */
    method ReadToken(list: ArgList) returns (code: Code, ghost t: Token)
      requires Valid() && list.Valid() && Apart(list)
      modifies this`pos, this`last, this`line, buf, file, list.Repr
      ensures Valid() && list.Valid() && fresh(list.Repr - old(list.Repr)) && |Rest()| <= |old(Rest())|
      ensures Param() == old(Param()) && list.others == old(list.others)
      ensures t == NextToken(Src(), old(line), old(Rest()))
      ensures Troubles(list) >= old(Troubles(list))
      ensures code == Error(NoMemory) || code == Error(ReadFailed) <==> Troubles(list) > old(Troubles(list))
      ensures code != Error(NoMemory) && code != Error(ReadFailed) ==>
                code == t.code && line == t.line && Rest() == t.rest && list.Holds(t.args)
    {
      hide ScanToken, ArgList.Valid, ArgList.Holds, Reader.Valid, Reader.Rest, Reader.Param, Reader.State;
      t := NextToken(Src(), line, Rest());
      var v := Locals(Flags(false, true, false, false, false, false, false), pos, line);
      list.Reset();
      ghost var ws: seq<Bytes> := [];
      InitState(v);
      while true
        invariant AtHead(list, v, ws) && t == FromHere(v, ws)
        invariant fresh(list.Repr - old(list.Repr)) && |Rest()| <= |old(Rest())|
        invariant Troubles(list) == old(Troubles(list)) && Param() == old(Param()) && list.others == old(list.others)
        decreases |Rest()|
      {
        var stop;
        v, stop, ws := Round(list, v, ws);
        if stop.Some? {
          return stop.value, t;
        }
      }
    }
  }

  lemma HeldIsPaired(s: Scanner)
    requires Wf(s) && InsideWord(s) && !s.f.quoted
    ensures Paired(s.held)
  {
  }

  /** What the scanner says where the buffer is used up. */
  lemma NoMoreBytes(src: Source, s: Scanner, rest: Bytes)
    ensures rest == [] ==> ScanToken(src, s, rest) == Token(AtEnd(src, s), s.args, s.line, [])
    ensures rest != [] && src.limit == Some(|s.held|) ==>
              ScanToken(src, s, rest) == Token(Error(OverlongReason(s)), s.args, s.startLine, rest)
  {
  }

  /** The token that comes of one step and the bytes behind it. */
  function AfterStep(src: Source, n: Next, rest: Bytes): Token {
    match n
    case More(s) => ScanToken(src, s, rest)
    case Stop(code, line, args) => Token(code, args, line, rest)
  }

  /** One turn of the scanner, when the limit is not met. */
  lemma Unfold(src: Source, s: Scanner, ch: byte, rest: Bytes)
    requires src.limit.Some? ==> |s.held| < src.limit.value
    requires Wf(s)
    ensures ScanToken(src, s, [ch] + rest) == AfterStep(src, Step(s, ch), rest)
    ensures Step(s, ch).More? ==> Wf(Step(s, ch).s)
    ensures Step(s, ch).Stop? ==> Step(s, ch).code !in {Error(ReadFailed), Error(NoMemory)}
  {
    StepErrors(s, ch);
    assert ([ch] + rest)[1..] == rest;
    StepKeepsWf(s, ch);
  }
}
