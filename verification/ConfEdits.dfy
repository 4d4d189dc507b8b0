/**
  Edits that keep the meaning of a configuration: white space and whole comments put in
  where the scanner stands between two words.
 */
module ConfEdits {
  import opened Bytes
  import opened ConfEscape
  import opened ConfScan
  import opened ConfSpelling
  import opened ConfGrammar

  /** States that differ only in line numbers and in held bytes that will not become a word. */
  ghost predicate Similar(s: Scanner, r: Scanner) {
    && s.f == r.f && s.args == r.args
    && (InsideWord(s) ==> r.held == s.held)
  }

  /** The outcome of a step, up to Similar and line numbers. */
  ghost predicate SimilarNext(n: Next, m: Next) {
    && n.More? == m.More?
    && if n.More? then Similar(n.s, m.s) else n.code == m.code && n.args == m.args
  }

  lemma StartSimilar(s: Scanner, r: Scanner, ch: byte)
    requires Similar(s, r) && s.held == r.held
    ensures Similar(StartWord(s, ch), StartWord(r, ch))
  {
    hide IsSpace;
    if ch == HASH || ch == BACKSLASH {
    } else if ch == DQUOTE {
    } else if ch == SQUOTE {
    } else {
    }
  }

  lemma BetweenSimilar(s: Scanner, r: Scanner, ch: byte)
    requires Similar(s, r) && s.f.lastSpace
    ensures SimilarNext(BetweenWords(s, ch), BetweenWords(r, ch))
  {
    hide StartWord;
    StartSimilar(s.(held := [ch], startLine := s.line), r.(held := [ch], startLine := r.line), ch);
  }

  lemma InWordSimilar(s: Scanner, r: Scanner, ch: byte)
    requires Similar(s, r) && InsideWord(s)
    ensures SimilarNext(InWord(s, ch), InWord(r, ch))
  {
    hide Unescape;
  }

  lemma StepSimilar(s: Scanner, r: Scanner, ch: byte)
    requires Wf(s) && Similar(s, r)
    ensures SimilarNext(Step(s, ch), Step(r, ch))
  {
    hide InWord, BetweenWords;
    var s0, r0 := Counted(s, ch), Counted(r, ch);
    if InsideWord(s) {
      InWordSimilar(s0, r0, ch);
    } else if s.f.lastSpace {
      BetweenSimilar(s0, r0, ch);
    } else {
      var f := s0.f.(lastSpace := true, needSpace := false);
      BetweenSimilar(s0.(f := f), r0.(f := f), ch);
    }
  }

  lemma {:induction false} ScanSimilar(src: Source, s: Scanner, r: Scanner, rest: Bytes)
    requires src.limit.None? && Wf(s) && Similar(s, r)
    ensures ScanToken(src, r, rest) == ScanToken(src, s, rest).(line := ScanToken(src, r, rest).line)
    decreases |rest|
  {
    hide Step;
    if rest != [] {
      StepSimilar(s, r, rest[0]);
      StepKeepsWf(s, rest[0]);
      if Step(s, rest[0]).More? {
        ScanSimilar(src, Step(s, rest[0]).s, Step(r, rest[0]).s, rest[1..]);
      }
    }
  }

  lemma {:induction false} TokensIgnoreLines(src: Source, line: nat, line': nat, rest: Bytes)
    requires src.limit.None?
    ensures Tokens(src, line, rest) == Tokens(src, line', rest)
    decreases |rest|
  {
    hide ScanToken;
    ScanSimilar(src, Init(line), Init(line'), rest);
    var t := NextToken(src, line, rest);
    if !t.code.Error? && !t.code.FileDone? {
      TokensIgnoreLines(src, t.line, NextToken(src, line', rest).line, t.rest);
    }
  }

  // ---------------------------------------------------------------- positions in a whole file

  /** The tokens still to come when the scanner is in state s. */
  function TokensFrom(src: Source, s: Scanner, rest: Bytes): (ts: seq<Tok>)
    ensures ts != []
  {
    var t := ScanToken(src, s, rest);
    [Tok(t.code, t.args)] + if t.code.Error? || t.code.FileDone? then [] else Tokens(src, t.line, t.rest)
  }

  /** The state after all of w, over as many tokens as end in it; None once a token is an error. */
  function Reach(s: Scanner, w: Bytes): Option<Scanner>
    decreases |w|
  {
    if w == [] then Some(s)
    else
      match Step(s, w[0])
      case More(s') => Reach(s', w[1..])
      case Stop(code, line, _) => if code.Error? then None else Reach(Init(line), w[1..])
  }

  /** The tokens that end in w. */
  function Emitted(s: Scanner, w: Bytes): seq<Tok>
    decreases |w|
  {
    if w == [] then []
    else
      match Step(s, w[0])
      case More(s') => Emitted(s', w[1..])
      case Stop(code, line, args) => [Tok(code, args)] + if code.Error? then [] else Emitted(Init(line), w[1..])
  }

  lemma {:induction false} TokensSplit(src: Source, s: Scanner, w: Bytes, tail: Bytes)
    requires src.limit.None? && Wf(s) && Reach(s, w).Some?
    ensures TokensFrom(src, s, w + tail) == Emitted(s, w) + TokensFrom(src, Reach(s, w).value, tail)
    ensures Wf(Reach(s, w).value)
    decreases |w|
  {
    hide Step, NextToken;
    if w == [] {
      assert w + tail == tail;
    } else {
      assert (w + tail)[0] == w[0] && (w + tail)[1..] == w[1..] + tail;
      StepKeepsWf(s, w[0]);
      match Step(s, w[0])
      case More(s') =>
        TokensSplit(src, s', w[1..], tail);
      case Stop(code, line, args) =>
        TokensSplit(src, Init(line), w[1..], tail);
        assert TokensFrom(src, s, w + tail) == [Tok(code, args)] + TokensFrom(src, Init(line), w[1..] + tail) by {
          FromInit(src, line, w[1..] + tail);
        }
    }
  }

  lemma FromInit(src: Source, line: nat, rest: Bytes)
    ensures Tokens(src, line, rest) == TokensFrom(src, Init(line), rest)
  {
    hide ScanToken;
  }

  // ---------------------------------------------------------------- the limit, once more

  lemma {:induction false} TokensUnderLimit(src: Source, line: nat, rest: Bytes)
    ensures var ts := Tokens(src, line, rest);
            Overlong(ts[|ts| - 1].code) || ts == Tokens(src.(limit := None), line, rest)
    decreases |rest|
  {
    hide ScanToken;
    LimitOnlyRejects(src, Init(line), rest);
    var t := NextToken(src, line, rest);
    if !t.code.Error? && !t.code.FileDone? {
      TokensUnderLimit(src, t.line, t.rest);
    }
  }

  lemma UnlimitedEdit(src: Source, line: nat, pre: Bytes, ins: Bytes, post: Bytes)
    requires src.limit.None?
    requires Reach(Init(line), pre).Some? && Between(Reach(Init(line), pre).value) && Blanks(ins, false)
    ensures Tokens(src, line, pre + ins + post) == Tokens(src, line, pre + post)
  {
    hide Step, ScanToken, Tokens, NextToken, Emitted, Reach, GapPeak;
    var s := Reach(Init(line), pre).value;
    assert pre + ins + post == pre + (ins + post);
    TokensSplit(src, Init(line), pre, ins + post);
    TokensSplit(src, Init(line), pre, post);
    FromInit(src, line, pre + (ins + post));
    FromInit(src, line, pre + post);
    var r := BlanksGo(s, ins);
    UnderLimit(src, s, ins, r, GapPeak(ins, |s.held|, false), [SPACE]);
    RunThenScan(src, s, ins, post);
    ScanSimilar(src, s, r, post);
    var t, t' := ScanToken(src, s, post), ScanToken(src, r, post);
    TokensIgnoreLines(src, t.line, t'.line, t.rest);
  }

  // ---------------------------------------------------------------- what the limit has to be above

  /** The most bytes held while there is a byte to come, over all the tokens of a text, without a limit. */
  function TextPeak(s: Scanner, rest: Bytes): nat
    decreases |rest|
  {
    if rest == [] then 0
    else
      match Step(s, rest[0])
      case More(s') => Max(|s.held|, TextPeak(s', rest[1..]))
      case Stop(code, line, _) => if code.Error? then |s.held| else Max(|s.held|, TextPeak(Init(line), rest[1..]))
  }

  /** The limit is met somewhere in the text. */
  predicate Strikes(src: Source, s: Scanner, rest: Bytes) {
    rest != [] && !Below(src, TextPeak(s, rest))
  }

  /** The tokens to come, one byte further on. */
  lemma TokensStep(src: Source, s: Scanner, rest: Bytes)
    requires rest != [] && src.limit != Some(|s.held|)
    ensures var n, more := Step(s, rest[0]), rest[1..];
            var ts := TokensFrom(src, s, rest);
            if n.More? then ts == TokensFrom(src, n.s, more)
            else if n.code.Error? then ts == [Tok(n.code, n.args)]
            else ts == [Tok(n.code, n.args)] + TokensFrom(src, Init(n.line), more)
  {
    hide Step, NextToken;
    StepErrors(s, rest[0]);
    if Step(s, rest[0]).Stop? {
      FromInit(src, Step(s, rest[0]).line, rest[1..]);
    }
  }

  lemma TokensStruck(src: Source, s: Scanner, rest: Bytes)
    requires rest == [] || src.limit == Some(|s.held|)
    ensures var ts := TokensFrom(src, s, rest); |ts| == 1 && (Overlong(ts[0].code) <==> rest != [])
  {
  }

  lemma {:induction false} StrikesExactly(src: Source, s: Scanner, rest: Bytes)
    requires src.limit.Some? ==> |s.held| <= src.limit.value
    ensures var ts := TokensFrom(src, s, rest); Overlong(ts[|ts| - 1].code) <==> Strikes(src, s, rest)
    decreases |rest|
  {
    hide Step, TokensFrom;
    if rest == [] || src.limit == Some(|s.held|) {
      TokensStruck(src, s, rest);
    } else {
      TokensStep(src, s, rest);
      StepErrors(s, rest[0]);
      var n, more := Step(s, rest[0]), rest[1..];
      if n.More? {
        HeldGrowsByOne(s, rest[0]);
        StrikesExactly(src, n.s, more);
        assert TextPeak(s, rest) == Max(|s.held|, TextPeak(n.s, more));
        assert Strikes(src, s, rest) <==> Strikes(src, n.s, more);
      } else if n.code.Error? {
        assert TextPeak(s, rest) == |s.held|;
      } else {
        StrikesExactly(src, Init(n.line), more);
        assert TextPeak(s, rest) == Max(|s.held|, TextPeak(Init(n.line), more));
        assert Strikes(src, s, rest) <==> Strikes(src, Init(n.line), more);
      }
    }
  }

  lemma {:induction false} TextPeakSplit(s: Scanner, w: Bytes, tail: Bytes)
    requires Reach(s, w).Some?
    ensures TextPeak(s, w + tail) == Max(TextPeak(s, w), TextPeak(Reach(s, w).value, tail))
    decreases |w|
  {
    hide Step;
    if w == [] {
      assert w + tail == tail;
    } else {
      assert (w + tail)[0] == w[0] && (w + tail)[1..] == w[1..] + tail;
      match Step(s, w[0])
      case More(s') => TextPeakSplit(s', w[1..], tail);
      case Stop(code, line, args) => TextPeakSplit(Init(line), w[1..], tail);
    }
  }

  lemma PeakOfNothing(s: Scanner)
    ensures TextPeak(s, []) == 0
  {
  }

  /** Inside one token, with a byte behind it. */
  lemma {:induction false} GoesToPeak(s: Scanner, w: Bytes, r: Scanner, m: nat, tail: Bytes)
    requires Goes(s, w, r, m) && tail != []
    ensures TextPeak(s, w + tail) == Max(m, TextPeak(r, tail))
    decreases |w|
  {
    hide Step;
    if w == [] {
      assert w + tail == tail;
    } else {
      assert (w + tail)[0] == w[0] && (w + tail)[1..] == w[1..] + tail;
      GoesToPeak(Step(s, w[0]).s, w[1..], r, Peak(Step(s, w[0]).s, w[1..]), tail);
    }
  }

  // ---------------------------------------------------------------- where inserted blanks meet it

  /** The bytes held behind blanks, with n held before them. */
  function GapHeld(g: Bytes, n: nat, comment: bool): nat
    decreases |g|
  {
    if g == [] then n
    else if !comment && g[0] == HASH then GapHeld(g[1..], 1, true)
    else GapHeld(g[1..], n + 1, comment && g[0] != LF)
  }

  lemma {:induction false} BlanksHold(s: Scanner, g: Bytes, r: Scanner)
    requires Between(s.(f := s.f.(sharp := false))) && BlankEnd(g, s.f.sharp).Some? && Run(FREE, s, g) == Some(r)
    ensures |r.held| == GapHeld(g, |s.held|, s.f.sharp)
    decreases |g|
  {
    hide InWord;
    if g != [] {
      BlanksHold(Step(s, g[0]).s, g[1..], r);
    }
  }

  lemma StepHoldsAlike(s: Scanner, r: Scanner, ch: byte)
    requires Wf(s) && Similar(s, r) && |s.held| == |r.held|
    ensures Step(s, ch).More? && Step(r, ch).More? ==> |Step(s, ch).s.held| == |Step(r, ch).s.held|
  {
    hide Unescape;
  }

  lemma {:induction false} SamePeak(s: Scanner, r: Scanner, rest: Bytes)
    requires Wf(s) && Similar(s, r) && |s.held| == |r.held|
    ensures TextPeak(s, rest) == TextPeak(r, rest)
    decreases |rest|
  {
    hide Step;
    if rest != [] {
      StepSimilar(s, r, rest[0]);
      StepKeepsWf(s, rest[0]);
      var n, m := Step(s, rest[0]), Step(r, rest[0]);
      if n.More? {
        StepHoldsAlike(s, r, rest[0]);
        SamePeak(n.s, m.s, rest[1..]);
      } else {
        SamePeak(Init(n.line), Init(m.line), rest[1..]);
      }
    }
  }

  /** How many bytes of white space a text begins with; its last byte does not count. */
  function Spaces(rest: Bytes): nat {
    if |rest| <= 1 || !IsSpace(rest[0]) then 0 else 1 + Spaces(rest[1..])
  }

  lemma BetweenStep(s: Scanner, r: Scanner, ch: byte)
    requires Between(s) && Similar(s, r)
    ensures var n, m := Step(s, ch), Step(r, ch);
            if IsSpace(ch) then
              && n.More? && Between(n.s) && |n.s.held| == |s.held| + 1
              && m.More? && Similar(n.s, m.s) && |m.s.held| == |r.held| + 1
            else n.More? && m.More? ==> |n.s.held| == |m.s.held|
  {
  }

  /** What is held between words counts until the white space is over, and then no more. */
  lemma {:induction false} SpacesHeld(s: Scanner, r: Scanner, rest: Bytes) returns (x: nat)
    requires Wf(s) && Between(s) && Similar(s, r) && rest != []
    ensures TextPeak(s, rest) == Max(|s.held| + Spaces(rest), x)
    ensures TextPeak(r, rest) == Max(|r.held| + Spaces(rest), x)
    decreases |rest|
  {
    hide Step, IsSpace;
    var n, m := Step(s, rest[0]), Step(r, rest[0]);
    StepSimilar(s, r, rest[0]);
    StepKeepsWf(s, rest[0]);
    BetweenStep(s, r, rest[0]);
    if n.Stop? {
      x := if n.code.Error? then 0 else TextPeak(Init(n.line), rest[1..]);
      SamePeak(Init(n.line), Init(m.line), rest[1..]);
    } else if !IsSpace(rest[0]) {
      x := TextPeak(n.s, rest[1..]);
      SamePeak(n.s, m.s, rest[1..]);
    } else if |rest| > 1 {
      x := SpacesHeld(n.s, m.s, rest[1..]);
    } else {
      x := 0;
    }
  }

  /** The state behind the blanks. */
  lemma BlanksReach(s: Scanner, ins: Bytes) returns (r: Scanner)
    requires Between(s) && Blanks(ins, false)
    ensures Goes(s, ins, r, GapPeak(ins, |s.held|, false)) && Similar(s, r) && Between(r)
    ensures |r.held| == GapHeld(ins, |s.held|, false)
  {
    hide GapPeak, GapHeld, BlankEnd, Step;
    r := BlanksGo(s, ins);
    BlanksHold(s, ins, r);
  }

  lemma LastBlankPeak(s: Scanner, w: Bytes, ch: byte)
    requires Between(s) && BlankEnd(w + [ch], false).Some?
    ensures TextPeak(s, w + [ch]) == GapPeak(w, |s.held|, false)
  {
    hide GapPeak, BlankEnd, Step, InWord;
    BlankPrefix(w, ch, false);
    var r := BlanksGo(s, w);
    GoesToPeak(s, w, r, GapPeak(w, |s.held|, false), [ch]);
    PeakAtEnd(s, w, r, GapPeak(w, |s.held|, false));
    var r1 := BlanksGo(r, [ch]);
    assert [ch][1..] == [];
  }

  /** How much the limit has to be above for n bytes held, then blanks, then post. */
  function InsertPeak(n: nat, ins: Bytes, post: Bytes): nat
    requires ins != []
  {
    if post == [] then GapPeak(ins[..|ins| - 1], n, false)
    else Max(GapPeak(ins, n, false), GapHeld(ins, n, false) + Spaces(post))
  }

  /**
    A text below the limit stays below it, with blanks put in, exactly when the blanks do, and the
    white space behind them with what is held from them.
   */
  lemma EditMeetsLimit(src: Source, line: nat, pre: Bytes, ins: Bytes, post: Bytes)
    requires Reach(Init(line), pre).Some? && Between(Reach(Init(line), pre).value) && Blanks(ins, false)
    requires !Strikes(src, Init(line), pre + post)
    ensures var n := |Reach(Init(line), pre).value.held|;
            Strikes(src, Init(line), pre + ins + post) <==> ins != [] && !Below(src, InsertPeak(n, ins, post))
  {
    hide Step, Reach, TextPeak, GapPeak, GapHeld, BlankEnd, Spaces;
    var s := Reach(Init(line), pre).value;
    assert pre + ins + post == pre + (ins + post);
    TextPeakSplit(Init(line), pre, ins + post);
    TextPeakSplit(Init(line), pre, post);
    if ins == [] {
      assert pre + ins + post == pre + post;
    } else if post == [] {
      assert ins + post == ins && pre + post == pre;
      assert ins[..|ins| - 1] + [ins[|ins| - 1]] == ins;
      LastBlankPeak(s, ins[..|ins| - 1], ins[|ins| - 1]);
      PeakOfNothing(s);
      PeakOfNothing(Init(line));
    } else {
      TokensSplit(FREE, Init(line), pre, []);
      var r := BlanksReach(s, ins);
      GoesToPeak(s, ins, r, GapPeak(ins, |s.held|, false), post);
      var x := SpacesHeld(s, r, post);
    }
  }

  /**
    White space and comments may be put in or taken out wherever the scanner stands between two
    words (last_space set, need_space and sharp_comment clear): every later call returns the same
    code and the same arguments, unless one of the two texts meets the buffer limit, and then that
    text ends with the error that reports it.
   */
  lemma EditKeepsTokens(src: Source, line: nat, pre: Bytes, ins: Bytes, post: Bytes)
    requires Reach(Init(line), pre).Some? && Between(Reach(Init(line), pre).value) && Blanks(ins, false)
    ensures var a, b := Tokens(src, line, pre + ins + post), Tokens(src, line, pre + post);
            var meetsA, meetsB := Strikes(src, Init(line), pre + ins + post), Strikes(src, Init(line), pre + post);
            && (Overlong(a[|a| - 1].code) <==> meetsA) && (Overlong(b[|b| - 1].code) <==> meetsB)
            && (!meetsA && !meetsB ==> a == b)
  {
    hide Strikes, Step, Reach, Tokens, TokensFrom;
    UnlimitedEdit(src.(limit := None), line, pre, ins, post);
    TokensUnderLimit(src, line, pre + ins + post);
    TokensUnderLimit(src, line, pre + post);
    FromInit(src, line, pre + ins + post);
    FromInit(src, line, pre + post);
    StrikesExactly(src, Init(line), pre + ins + post);
    StrikesExactly(src, Init(line), pre + post);
  }

  /**
    So the edited text is accepted or rejected as before, and yields the same tree and the same
    configuration, unless one of the two meets the limit. A parameter has no limit to meet.
   */
  lemma EditKeepsTree<St>(
      h: Handlers<St>, src: Source, mode: Mode, st: St, line: nat, pre: Bytes, ins: Bytes, post: Bytes)
    requires Reach(Init(line), pre).Some? && Between(Reach(Init(line), pre).value) && Blanks(ins, false)
    ensures var p := ParseFrom(h, src, mode, st, line, pre + ins + post);
            var q := ParseFrom(h, src, mode, st, line, pre + post);
            || SameOutcome(src, p, q)
            || (src.limit.Some? && (Strikes(src, Init(line), pre + ins + post) || Strikes(src, Init(line), pre + post)))
  {
    hide Reach, Tokens, TextPeak;
    EditKeepsTokens(src, line, pre, ins, post);
    if Tokens(src, line, pre + ins + post) == Tokens(src, line, pre + post) {
      SameTokensSameTree(h, src, mode, st, line, pre + ins + post, line, pre + post);
    }
  }
}
