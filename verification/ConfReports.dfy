/**
  What is reported with a token: its line, and for an error its reason, in terms of the bytes read
  alone.
 */
module ConfReports {
  import opened Bytes
  import opened ConfEscape
  import opened ConfScan
  import opened ConfSpelling
  import opened ConfShape

  // ---------------------------------------------------------------- lines

  lemma {:induction false} LineFeedsSnoc(w: Bytes, ch: byte)
    ensures LineFeeds(w + [ch]) == LineFeeds(w) + LineFeed(ch)
    decreases |w|
  {
    if w == [] {
      assert [] + [ch] == [ch] && [ch][1..] == [];
    } else {
      assert (w + [ch])[1..] == w[1..] + [ch];
      LineFeedsSnoc(w[1..], ch);
    }
  }

  /** After `read`: both lines are counted right, and the held bytes are the last ones read. */
  ghost predicate Tracks(s: Scanner, line: nat, read: Bytes) {
    && |s.held| <= |read| && s.held == read[|read| - |s.held|..]
    && s.line == line + LineFeeds(read)
    && s.startLine == line + LineFeeds(read[..|read| - |s.held|])
  }

  /** What a step does to the held bytes and to the line they begin in. */
  lemma StepHolds(s: Scanner, ch: byte)
    requires Step(s, ch).More?
    ensures var r := Step(s, ch).s;
            || (r.held == s.held + [ch] && r.startLine == s.startLine)
            || (ch != LF && r.held == [ch] && r.startLine == s.line)
            || (ch != LF && r.held == [] && r.startLine == s.line)
  {
    hide Unescape;
  }

  lemma StepTracks(s: Scanner, ch: byte, line: nat, read: Bytes)
    requires Tracks(s, line, read)
    ensures Step(s, ch).More? ==> Tracks(Step(s, ch).s, line, read + [ch])
    ensures Step(s, ch).Stop? ==> Step(s, ch).line == line + LineFeeds(read + [ch])
  {
    hide Step, LineFeeds;
    StepCountsLine(s, ch);
    LineFeedsSnoc(read, ch);
    if Step(s, ch).More? {
      StepHolds(s, ch);
      var r := Step(s, ch).s;
      var all := read + [ch];
      if r.held == s.held + [ch] && r.startLine == s.startLine {
        assert all[..|all| - |r.held|] == read[..|read| - |s.held|];
        assert all[|all| - |r.held|..] == read[|read| - |s.held|..] + [ch];
      } else if r.held == [ch] {
        assert all[..|all| - 1] == read;
      } else {
        assert all[..|all|] == all;
      }
    }
  }

  /** The line of an outcome: that of the last byte read, or of the held bytes if they fill the buffer. */
  ghost predicate AtLine(src: Source, line: nat, all: Bytes, t: Token) {
    && |t.rest| <= |all| && t.rest == all[|all| - |t.rest|..]
    && var read := all[..|all| - |t.rest|];
       if Overlong(t.code) then
         && src.limit.Some? && src.limit.value <= |read|
         && t.line == line + LineFeeds(read[..|read| - src.limit.value])
       else t.line == line + LineFeeds(read)
  }

  lemma {:induction false} ScanAtLine(src: Source, s: Scanner, line: nat, read: Bytes, rest: Bytes)
    requires Tracks(s, line, read)
    ensures AtLine(src, line, read + rest, ScanToken(src, s, rest))
    decreases |rest|
  {
    hide Step, LineFeeds;
    var all := read + rest;
    if rest == [] {
      assert all[..|all|] == read;
    } else if src.limit == Some(|s.held|) {
      assert all[..|all| - |rest|] == read && all[|all| - |rest|..] == rest;
    } else {
      StepErrors(s, rest[0]);
      StepTracks(s, rest[0], line, read);
      assert all == read + [rest[0]] + rest[1..];
      if Step(s, rest[0]).More? {
        ScanAtLine(src, Step(s, rest[0]).s, line, read + [rest[0]], rest[1..]);
      } else {
        assert all[..|all| - |rest[1..]|] == read + [rest[0]];
      }
    }
  }

  /**
    The line reported with any token or error counts the line feeds read; with "too long" it counts
    those before the bytes that fill the buffer, which are the last ones read.
   */
  lemma LineOfToken(src: Source, line: nat, text: Bytes)
    ensures AtLine(src, line, text, NextToken(src, line, text))
  {
    assert [] + text == text;
    ScanAtLine(src, Init(line), line, [], text);
  }

  // ---------------------------------------------------------------- reasons

  /** The last byte read. */
  function LastRead(text: Bytes, rest: Bytes): Option<byte> {
    if |rest| < |text| then Some(text[|text| - |rest| - 1]) else None
  }

  /** An error says what the byte is that may not stand there, that the text has ended, or that a word is too long. */
  ghost predicate Reasoned(src: Source, text: Bytes, t: Token) {
    t.code.Error? ==>
      match t.code.why
      case UnexpectedByte(ch) => LastRead(text, t.rest) == Some(ch)
      case UnexpectedEndOfFile => src.isFile && t.rest == []
      case UnexpectedEndOfParam => !src.isFile && t.rest == []
      case TooLong => src.limit.Some? && t.rest != []
      case MissingTerminator(_) => src.limit.Some? && t.rest != []
      case NoMemory => false
      case ReadFailed => false
  }

  lemma {:induction false} ScanReasoned(src: Source, s: Scanner, rest: Bytes)
    ensures Reasoned(src, rest, ScanToken(src, s, rest))
    decreases |rest|
  {
    hide Step;
    if rest != [] && src.limit != Some(|s.held|) {
      StepErrors(s, rest[0]);
      StepBlames(s, rest[0]);
      if Step(s, rest[0]).More? {
        ScanReasoned(src, Step(s, rest[0]).s, rest[1..]);
      }
    }
  }

  lemma StepBlames(s: Scanner, ch: byte)
    ensures Step(s, ch).Stop? && Step(s, ch).code.Error? ==> Step(s, ch).code == Error(UnexpectedByte(ch))
  {
    hide Unescape;
  }

  /** A text that is cut off as too long, as the story of what has been read: within quotes or not. */
  ghost predicate CutOff(src: Source, text: Bytes, t: Token, y: Story) {
    && y.Text() + t.rest == text && src.limit.Some?
    && (y.open.InQuotes? ==> |y.open.w| == src.limit.value)
    && t.code == Error(if y.open.InQuotes? then MissingTerminator(y.open.q) else TooLong)
  }

  lemma {:induction false} ScanCutOff(src: Source, y: Story, s: Scanner, rest: Bytes) returns (z: Story)
    requires Tells(y, s)
    ensures var t := ScanToken(src, s, rest);
            Overlong(t.code) ==> CutOff(src, y.Text() + rest, t, z) && Begins(z)
    decreases |rest|
  {
    hide Tells, Step, Story.Text, Begins;
    z := y;
    if rest != [] {
      if src.limit == Some(|s.held|) {
        QuotesTell(y, s);
      } else {
        StepErrors(s, rest[0]);
        var x, items := StepTold(y, s, rest[0]);
        assert y.Text() + rest == y.Text() + [rest[0]] + rest[1..];
        if Step(s, rest[0]).More? {
          z := ScanCutOff(src, x, Step(s, rest[0]).s, rest[1..]);
        }
      }
    }
  }

  /** What is read so far is blanks, words that are over, and one that may not be. */
  ghost predicate Begins(y: Story) {
    match y.open
    case AtLead => y.done == [] && BlankEnd(y.lead, false).Some?
    case AfterWord(item) =>
      Begun(y.lead, y.done, item.word) && item.word.Fine() && (item.gap != [] ==> BlankEnd(item.gap, false).Some?)
    case InBare(w) => Begun(y.lead, y.done, Plainly(w)) && exists quoted :: BareTo(w, quoted)
    case InQuotes(q, w) => Begun(y.lead, y.done, Quoted(q, w)) && exists quoted :: QuotableTo(w, q, quoted)
  }

  lemma QuotesTell(y: Story, s: Scanner)
    requires Tells(y, s)
    ensures s.f.dQuoted <==> y.open.InQuotes? && y.open.q == DQUOTE
    ensures s.f.sQuoted <==> y.open.InQuotes? && y.open.q == SQUOTE
    ensures y.open.InQuotes? ==> s.held == y.open.w && (y.open.q == DQUOTE || y.open.q == SQUOTE)
    ensures Begins(y)
  {
    hide Unescape, Meant, Spelled, AllFine;
  }

  /**
    Every error has its reason; and what is reported for a text that is too long is the quote that is
    missing, if the bytes that fill the buffer are within quotes, and "too long" if not.
   */
  lemma ReasonOfError(src: Source, line: nat, text: Bytes) returns (y: Story)
    ensures var t := NextToken(src, line, text);
            Reasoned(src, text, t) && (Overlong(t.code) ==> CutOff(src, text, t, y) && Begins(y))
  {
    hide ScanToken, Tells, Story.Text, Begins;
    var y0 := Story([], [], AtLead);
    StoryBegins(line);
    assert [] + text == text;
    ScanReasoned(src, Init(line), text);
    y := ScanCutOff(src, y0, Init(line), text);
  }
}
