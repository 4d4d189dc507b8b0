/**
  The token scanner of cw_conf_read_token as a pure step function over bytes.

  The C code keeps in `start` the address of the first byte it has to hold in the buffer.
  Here the held bytes themselves are the state: `held` is the sequence from `start` up to
  the byte about to be read. The scanner thus never mentions a position or a buffer.
 */
module ConfScan {
  import opened Bytes
  import opened ConfEscape

  datatype Reason =
    | UnexpectedByte(ch: byte)
    | UnexpectedEndOfFile
    | UnexpectedEndOfParam
    | TooLong
    | MissingTerminator(ch: byte)
    | NoMemory
    | ReadFailed

  /** The return codes of cw_conf_read_token; an Error carries what is logged. */
  datatype Code = Ok | BlockStart | BlockDone | FileDone | Error(why: Reason)

  /** Where the bytes come from. Only a file goes through a buffer of limited size. */
  datatype Source = Source(limit: Option<nat>, isFile: bool)

  /** The state flags of cw_conf_read_token; `found` is never set at the head of its loop. */
  datatype Flags = Flags(
    needSpace: bool, lastSpace: bool, sharp: bool, variable: bool, quoted: bool, sQuoted: bool, dQuoted: bool)

  datatype Scanner = Scanner(f: Flags, held: Bytes, startLine: nat, line: nat, args: seq<Bytes>)

  datatype Next =
    | More(s: Scanner)
    | Stop(code: Code, line: nat, args: seq<Bytes>)

  datatype Token = Token(code: Code, args: seq<Bytes>, line: nat, rest: Bytes)

  function Init(line: nat): Scanner {
    Scanner(Flags(false, true, false, false, false, false, false), [], line, line, [])
  }

  // ---------------------------------------------------------------- one byte

  /** A line feed counts, and ends a comment. */
  function Counted(s: Scanner, ch: byte): Scanner {
    if ch == LF then s.(line := s.line + 1, f := s.f.(sharp := false)) else s
  }

  function Step(s: Scanner, ch: byte): Next {
    var c := Counted(s, ch);
    if c.f.sharp then More(c.(held := c.held + [ch]))
    else if c.f.quoted then More(c.(f := c.f.(quoted := false), held := c.held + [ch]))
    else if c.f.needSpace then
      if IsSpace(ch) then More(c.(f := c.f.(lastSpace := true, needSpace := false), held := c.held + [ch]))
      else if ch == SEMI then Stop(Ok, c.line, c.args)
      else if ch == LBRACE then Stop(BlockStart, c.line, c.args)
      else if ch == RPAREN then BetweenWords(c.(f := c.f.(lastSpace := true, needSpace := false)), ch)
      else Stop(Error(UnexpectedByte(ch)), c.line, c.args)
    else if c.f.lastSpace then BetweenWords(c, ch)
    else InWord(c, ch)
  }

  /** last_space is set: skip white space, or start a word, a comment or a terminator at ch. */
  function BetweenWords(s: Scanner, ch: byte): Next {
    if IsSpace(ch) then More(s.(held := s.held + [ch]))
    else if ch == SEMI || ch == LBRACE then
      if s.args == [] then Stop(Error(UnexpectedByte(ch)), s.line, s.args)
      else Stop(if ch == LBRACE then BlockStart else Ok, s.line, s.args)
    else if ch == RBRACE then
      Stop(if s.args != [] then Error(UnexpectedByte(ch)) else BlockDone, s.line, s.args)
    else More(StartWord(s.(held := [ch], startLine := s.line), ch))
  }

  function StartWord(s: Scanner, ch: byte): Scanner {
    if ch == HASH then s.(f := s.f.(sharp := true))
    else if ch == BACKSLASH then s.(f := s.f.(quoted := true, lastSpace := false))
    else if ch == DQUOTE then s.(held := [], f := s.f.(dQuoted := true, lastSpace := false))
    else if ch == SQUOTE then s.(held := [], f := s.f.(sQuoted := true, lastSpace := false))
    else s.(f := s.f.(lastSpace := false))
  }

  /** Inside a word, not after a backslash. */
  function InWord(s: Scanner, ch: byte): Next {
    var more := s.(held := s.held + [ch], f := s.f.(variable := false));
    var word := s.args + [Unescape(s.held)];
    if ch == LBRACE && s.f.variable then More(s.(held := s.held + [ch]))
    else if ch == BACKSLASH then More(more.(f := more.f.(quoted := true)))
    else if ch == DOLLAR then More(more.(f := more.f.(variable := true)))
    else if s.f.dQuoted then
      if ch == DQUOTE then More(more.(f := more.f.(dQuoted := false, needSpace := true), args := word)) else More(more)
    else if s.f.sQuoted then
      if ch == SQUOTE then More(more.(f := more.f.(sQuoted := false, needSpace := true), args := word)) else More(more)
    else if IsSpace(ch) then More(more.(f := more.f.(lastSpace := true), args := word))
    else if ch == SEMI then Stop(Ok, s.line, word)
    else if ch == LBRACE then Stop(BlockStart, s.line, word)
    else More(more)
  }

  // ---------------------------------------------------------------- one token

  /** What the scanner reports when the source has no byte left. */
  function AtEnd(src: Source, s: Scanner): Code {
    if s.args != [] || !s.f.lastSpace then
      Error(if src.isFile then UnexpectedEndOfFile else UnexpectedEndOfParam)
    else FileDone
  }

  /** What the scanner reports when the held bytes fill the whole buffer. */
  function OverlongReason(s: Scanner): Reason {
    if s.f.dQuoted then MissingTerminator(DQUOTE)
    else if s.f.sQuoted then MissingTerminator(SQUOTE)
    else TooLong
  }

  function ScanToken(src: Source, s: Scanner, rest: Bytes): (t: Token)
    ensures |t.rest| <= |rest|
    ensures t.code in {Ok, BlockStart, BlockDone} ==> |t.rest| < |rest|
    decreases |rest|
  {
    if rest == [] then Token(AtEnd(src, s), s.args, s.line, [])
    else if src.limit == Some(|s.held|) then Token(Error(OverlongReason(s)), s.args, s.startLine, rest)
    else
      match Step(s, rest[0])
      case More(s') => ScanToken(src, s', rest[1..])
      case Stop(code, line, args) => Token(code, args, line, rest[1..])
  }

  /** The unbuffered scanner: one call of cw_conf_read_token over the bytes still unread. */
  function NextToken(src: Source, line: nat, rest: Bytes): (t: Token)
    ensures |t.rest| <= |rest|
    ensures t.code in {Ok, BlockStart, BlockDone} ==> |t.rest| < |rest|
  {
    ScanToken(src, Init(line), rest)
  }

  // ---------------------------------------------------------------- runs that stay inside one token

  /** The state after all of w, if the scanner neither stops nor meets the limit on the way. */
  function Run(src: Source, s: Scanner, w: Bytes): Option<Scanner>
    decreases |w|
  {
    if w == [] then Some(s)
    else if src.limit == Some(|s.held|) then None
    else
      match Step(s, w[0])
      case Stop(_, _, _) => None
      case More(s') => Run(src, s', w[1..])
  }

  lemma {:induction false} RunThenScan(src: Source, s: Scanner, w: Bytes, tail: Bytes)
    requires Run(src, s, w).Some?
    ensures ScanToken(src, s, w + tail) == ScanToken(src, Run(src, s, w).value, tail)
    decreases |w|
  {
    if w == [] {
      assert w + tail == tail;
    } else {
      assert (w + tail)[0] == w[0] && (w + tail)[1..] == w[1..] + tail;
      RunThenScan(src, Step(s, w[0]).s, w[1..], tail);
    }
  }

  lemma {:induction false} RunAppend(src: Source, s: Scanner, u: Bytes, w: Bytes)
    requires Run(src, s, u).Some?
    ensures Run(src, s, u + w) == Run(src, Run(src, s, u).value, w)
    decreases |u|
  {
    if u == [] {
      assert u + w == w;
    } else {
      assert (u + w)[0] == u[0] && (u + w)[1..] == u[1..] + w;
      RunAppend(src, Step(s, u[0]).s, u[1..], w);
    }
  }

  lemma RunOne(src: Source, s: Scanner, ch: byte)
    requires Step(s, ch).More? && src.limit != Some(|s.held|)
    ensures Run(src, s, [ch]) == Some(Step(s, ch).s)
  {
    assert [ch][1..] == [];
  }

  // ---------------------------------------------------------------- what every state satisfies

  predicate InsideWord(s: Scanner) { !s.f.needSpace && !s.f.lastSpace }

  /** Holds at every loop head of cw_conf_read_token. */
  ghost predicate Wf(s: Scanner) {
    && !(s.f.needSpace && s.f.lastSpace)
    && !(s.f.sQuoted && s.f.dQuoted)
    && (s.f.needSpace ==> s.args != [])
    && (s.f.sharp ==> s.f.lastSpace)
    && (!InsideWord(s) ==> !s.f.quoted && !s.f.sQuoted && !s.f.dQuoted && !s.f.variable)
    && (InsideWord(s) ==> if s.f.quoted then PairedButOne(s.held) else Paired(s.held))
    && (InsideWord(s) && !s.f.sQuoted && !s.f.dQuoted ==> s.held != [])
    && s.startLine <= s.line
  }

  /** What a step may leave behind: a state of the same kind, or a token with or without arguments. */
  ghost predicate NextWf(n: Next) {
    match n
    case More(s) => Wf(s)
    case Stop(code, _, args) =>
      (code in {Ok, BlockStart} ==> args != []) && (code == BlockDone ==> args == []) && code != FileDone
  }

  lemma BetweenKeepsWf(s: Scanner, ch: byte)
    requires Wf(s) && s.f.lastSpace && !s.f.sharp
    ensures NextWf(BetweenWords(s, ch))
  {
    assert Paired([]);
    if ch == BACKSLASH {
      PairedSnoc([], ch);
    }
  }

  lemma InWordKeepsWf(s: Scanner, ch: byte)
    requires Wf(s) && InsideWord(s) && !s.f.quoted
    ensures NextWf(InWord(s, ch))
  {
    hide Unescape, Paired, PairedButOne;
    PairedSnoc(s.held, ch);
  }

  lemma StepKeepsWf(s: Scanner, ch: byte)
    requires Wf(s)
    ensures NextWf(Step(s, ch))
  {
    hide InWord, BetweenWords, Paired, PairedButOne;
    var c := Counted(s, ch);
    if InsideWord(s) {
      if s.f.quoted { PairedButOneThen(s.held, ch); } else { InWordKeepsWf(c, ch); }
    } else if s.f.lastSpace {
      if !c.f.sharp { BetweenKeepsWf(c, ch); }
    } else {
      BetweenKeepsWf(c.(f := c.f.(lastSpace := true, needSpace := false)), ch);
    }
  }

  lemma {:induction false} ScanTokenContract(src: Source, s: Scanner, rest: Bytes)
    requires Wf(s)
    ensures var t := ScanToken(src, s, rest);
            && (t.code in {Ok, BlockStart} ==> t.args != [])
            && (t.code in {BlockDone, FileDone} ==> t.args == [])
            && (t.code == FileDone ==> t.rest == [])
    decreases |rest|
  {
    if rest != [] && src.limit != Some(|s.held|) {
      StepKeepsWf(s, rest[0]);
      if Step(s, rest[0]).More? {
        ScanTokenContract(src, Step(s, rest[0]).s, rest[1..]);
      }
    }
  }

  /** The token contract the dispatcher relies on: a directive has a name, a closing token has none. */
  lemma TokenContract(src: Source, line: nat, rest: Bytes)
    ensures var t := NextToken(src, line, rest);
            && (t.code in {Ok, BlockStart} ==> t.args != [])
            && (t.code in {BlockDone, FileDone} ==> t.args == [])
            && (t.code == FileDone ==> t.rest == [])
  {
    ScanTokenContract(src, Init(line), rest);
  }

  // ---------------------------------------------------------------- the limit only ever adds the "too long" error

  predicate Overlong(code: Code) {
    code.Error? && (code.why.TooLong? || code.why.MissingTerminator?)
  }

  /** A byte is rejected only as unexpected, and none is the end of the file. */
  lemma StepErrors(s: Scanner, ch: byte)
    ensures Step(s, ch).Stop? ==> Step(s, ch).code != FileDone
    ensures Step(s, ch).Stop? && Step(s, ch).code.Error? ==> Step(s, ch).code.why == UnexpectedByte(ch)
  {
  }

  /** A scan under a limit either reports the limit or is the scan without one. */
  lemma {:induction false} LimitOnlyRejects(src: Source, s: Scanner, rest: Bytes)
    ensures var t := ScanToken(src, s, rest);
            Overlong(t.code) || t == ScanToken(src.(limit := None), s, rest)
    ensures !Overlong(ScanToken(src.(limit := None), s, rest).code)
    decreases |rest|
  {
    if rest != [] {
      StepErrors(s, rest[0]);
      if Step(s, rest[0]).More? {
        LimitOnlyRejects(src, Step(s, rest[0]).s, rest[1..]);
      }
    }
  }

  /** The state after the first n bytes of rest, if the scanner is still running there. */
  function StateAfter(s: Scanner, rest: Bytes, n: nat): Option<Scanner>
    requires n <= |rest|
    decreases n
  {
    if n == 0 then Some(s)
    else
      match Step(s, rest[0])
      case Stop(_, _, _) => None
      case More(s') => StateAfter(s', rest[1..], n - 1)
  }

  /** After n bytes the scanner is still running, bytes remain, and the held ones fill the buffer. */
  ghost predicate FillsBuffer(src: Source, s: Scanner, rest: Bytes, n: nat) {
    n < |rest| && StateAfter(s, rest, n).Some? && src.limit == Some(|StateAfter(s, rest, n).value.held|)
  }

  /**
    The "too long parameter" error in terms of the byte sequence alone: no chunk boundary
    appears in the condition.
   */
  lemma {:induction false} OverlongExactly(src: Source, s: Scanner, rest: Bytes)
    ensures Overlong(ScanToken(src, s, rest).code) <==> exists n: nat :: FillsBuffer(src, s, rest, n)
    decreases |rest|
  {
    if rest == [] {
    } else if src.limit == Some(|s.held|) {
      assert FillsBuffer(src, s, rest, 0);
    } else {
      StepErrors(s, rest[0]);
      forall n: nat | FillsBuffer(src, s, rest, n)
        ensures Step(s, rest[0]).More? && n > 0 && FillsBuffer(src, Step(s, rest[0]).s, rest[1..], n - 1)
      {
      }
      if Step(s, rest[0]).More? {
        OverlongExactly(src, Step(s, rest[0]).s, rest[1..]);
        forall n: nat | FillsBuffer(src, Step(s, rest[0]).s, rest[1..], n)
          ensures FillsBuffer(src, s, rest, n + 1)
        {
        }
      }
    }
  }

  // ---------------------------------------------------------------- lines, limits and places

  function LineFeed(ch: byte): nat {
    if ch == LF then 1 else 0
  }

  function LineFeeds(w: Bytes): nat {
    if w == [] then 0 else LineFeed(w[0]) + LineFeeds(w[1..])
  }

  /** n held bytes do not reach the buffer limit. */
  predicate Below(src: Source, n: nat) {
    src.limit.Some? ==> n < src.limit.value
  }

  /** The scanner stands between two words. */
  ghost predicate Between(s: Scanner) {
    s.f.lastSpace && !s.f.needSpace && !s.f.sharp && !s.f.quoted && !s.f.variable && !s.f.sQuoted && !s.f.dQuoted
  }

  lemma StopScan(src: Source, s: Scanner, ch: byte, tail: Bytes)
    requires Step(s, ch).Stop? && Below(src, |s.held|)
    ensures var e := Step(s, ch); ScanToken(src, s, [ch] + tail) == Token(e.code, e.args, e.line, tail)
  {
    assert ([ch] + tail)[1..] == tail;
  }

  lemma InWordHolds(s: Scanner, ch: byte)
    ensures InWord(s, ch).More? ==> InWord(s, ch).s.held == s.held + [ch]
  {
  }

  lemma HeldGrowsByOne(s: Scanner, ch: byte)
    requires Step(s, ch).More?
    ensures |Step(s, ch).s.held| <= |s.held| + 1
  {
    hide InWord;
    InWordHolds(Counted(s, ch), ch);
  }
}
