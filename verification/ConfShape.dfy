/**
  The other way round: every directive the scanner reports was written in one of the forms of
  ConfSpelling. While it reads, the text so far is always the beginning of such a form.
 */
module ConfShape {
  import opened Bytes
  import opened ConfEscape
  import opened ConfScan
  import opened ConfSpelling

  // ---------------------------------------------------------------- one more byte

  lemma {:induction false} BlankSnoc(w: Bytes, comment: bool, ch: byte)
    requires BlankEnd(w, comment).Some?
    ensures BlankEnd(w + [ch], comment) == BlankEnd([ch], BlankEnd(w, comment).value)
    decreases |w|
  {
    if w == [] {
      assert [] + [ch] == [ch];
    } else {
      assert (w + [ch])[1..] == w[1..] + [ch];
      BlankSnoc(w[1..], if comment then w[0] != LF else w[0] == HASH, ch);
    }
  }

  lemma {:induction false} RestSnoc(w: Bytes, v: bool, ch: byte)
    requires BareRest(w, v) && ch != BACKSLASH && ch != SEMI && !IsSpace(ch)
    requires ch == LBRACE ==> RestTakesBrace(w, v)
    ensures BareRest(w + [ch], v) && RestTakesBrace(w + [ch], v) == (ch == DOLLAR || ch == LBRACE)
    decreases |w|
  {
    if w == [] {
      assert [] + [ch] == [ch] && [ch][1..] == [];
    } else {
      var k := First(w);
      assert (w + [ch])[k..] == w[k..] + [ch];
      RestSnoc(w[k..], w[0] == DOLLAR || w[0] == LBRACE, ch);
    }
  }

  lemma {:induction false} RestPair(w: Bytes, v: bool, ch: byte)
    requires BareRest(w, v)
    ensures BareRest(w + [BACKSLASH, ch], v) && !RestTakesBrace(w + [BACKSLASH, ch], v)
    decreases |w|
  {
    var p := [BACKSLASH, ch];
    if w == [] {
      assert [] + p == p && p[2..] == [];
    } else {
      var k := First(w);
      assert (w + p)[k..] == w[k..] + p;
      RestPair(w[k..], w[0] == DOLLAR || w[0] == LBRACE, ch);
    }
  }

  lemma {:induction false} QuotableSnoc(w: Bytes, q: byte, ch: byte)
    requires Quotable(w, q) && ch != BACKSLASH && ch != q
    ensures Quotable(w + [ch], q)
    decreases |w|
  {
    if w == [] {
      assert [] + [ch] == [ch] && [ch][1..] == [];
    } else {
      var k := First(w);
      assert (w + [ch])[k..] == w[k..] + [ch];
      QuotableSnoc(w[k..], q, ch);
    }
  }

  lemma {:induction false} QuotablePair(w: Bytes, q: byte, ch: byte)
    requires Quotable(w, q)
    ensures Quotable(w + [BACKSLASH, ch], q)
    decreases |w|
  {
    var p := [BACKSLASH, ch];
    if w == [] {
      assert [] + p == p && p[2..] == [];
    } else {
      var k := First(w);
      assert (w + p)[k..] == w[k..] + p;
      QuotablePair(w[k..], q, ch);
    }
  }

  /** A bare word so far; `quoted` if its last byte is a backslash that waits for the next. */
  predicate BareTo(w: Bytes, quoted: bool) {
    if !quoted then Bare(w)
    else w != [] && w[|w| - 1] == BACKSLASH && (|w| == 1 || Bare(w[..|w| - 1]))
  }

  predicate QuotableTo(w: Bytes, q: byte, quoted: bool) {
    if !quoted then Quotable(w, q)
    else w != [] && w[|w| - 1] == BACKSLASH && Quotable(w[..|w| - 1], q)
  }

  lemma BareGrows(w: Bytes, ch: byte)
    requires Bare(w) && ch != SEMI && !IsSpace(ch) && (ch == LBRACE ==> TakesBrace(w))
    ensures BareTo(w + [ch], ch == BACKSLASH)
    ensures ch != BACKSLASH ==> TakesBrace(w + [ch]) == (ch == DOLLAR || ch == LBRACE)
  {
    var k := First(w);
    if ch == BACKSLASH {
      assert (w + [ch])[..|w|] == w;
    } else {
      assert (w + [ch])[k..] == w[k..] + [ch];
      RestSnoc(w[k..], false, ch);
    }
  }

  lemma BarePaired(w: Bytes, ch: byte)
    requires BareTo(w, true)
    ensures Bare(w + [ch]) && !TakesBrace(w + [ch])
  {
    if |w| == 1 {
      assert (w + [ch])[2..] == [];
    } else {
      var u := w[..|w| - 1];
      var k := First(u);
      assert w + [ch] == u + [BACKSLASH, ch];
      assert (u + [BACKSLASH, ch])[k..] == u[k..] + [BACKSLASH, ch];
      RestPair(u[k..], false, ch);
    }
  }

  lemma QuotableGrows(w: Bytes, q: byte, ch: byte)
    requires Quotable(w, q) && ch != q
    ensures QuotableTo(w + [ch], q, ch == BACKSLASH)
  {
    if ch == BACKSLASH {
      assert (w + [ch])[..|w|] == w;
    } else {
      QuotableSnoc(w, q, ch);
    }
  }

  lemma QuotablePaired(w: Bytes, q: byte, ch: byte)
    requires QuotableTo(w, q, true)
    ensures Quotable(w + [ch], q)
  {
    QuotablePair(w[..|w| - 1], q, ch);
    assert w[..|w| - 1] + [BACKSLASH, ch] == w + [ch];
  }

  // ---------------------------------------------------------------- the text so far

  /** What the scanner is in the middle of. */
  datatype Open = AtLead | AfterWord(item: Item) | InBare(w: Bytes) | InQuotes(q: byte, w: Bytes)

  /** The blanks in front, the words that are over, and the rest. */
  datatype Story = Story(lead: Bytes, done: seq<Item>, open: Open)
  {
    function Text(): Bytes {
      lead + Spelled(done) + OpenText()
    }

    function OpenText(): Bytes {
      match open
      case AtLead => []
      case AfterWord(item) => item.word.Text() + item.gap
      case InBare(w) => w
      case InQuotes(q, w) => [q] + w
    }
  }

  predicate JoinsLast(done: seq<Item>, next: Spelling) {
    done != [] ==> Joins(done[|done| - 1], next)
  }

  /** Blanks in front, then words that are over, the next of which may be `next`. */
  predicate Begun(lead: Bytes, done: seq<Item>, next: Spelling) {
    Blanks(lead, false) && AllFine(done) && JoinsLast(done, next)
  }

  /** The flags between words, in a comment or not. */
  predicate Outside(s: Scanner) {
    s.f == Flags(false, true, s.f.sharp, false, false, false, false)
  }

  predicate GapTo(g: Bytes, sharp: bool) {
    g != [] && IsSpace(g[0]) && BlankEnd(g[1..], false) == Some(sharp)
  }

  ghost predicate Tells(y: Story, s: Scanner) {
    match y.open
    case AtLead => y.done == [] && s.args == [] && Outside(s) && BlankEnd(y.lead, false) == Some(s.f.sharp)
    case AfterWord(item) =>
      && Begun(y.lead, y.done, item.word) && item.word.Fine() && s.args == Meant(y.done + [item])
      && if item.gap == [] then item.word.Quoted? && Closed(s) else Outside(s) && GapTo(item.gap, s.f.sharp)
    case InBare(w) =>
      && Begun(y.lead, y.done, Plainly(w)) && s.args == Meant(y.done) && s.held == w
      && s.f == Flags(false, false, false, !s.f.quoted && TakesBrace(w), s.f.quoted, false, false)
      && BareTo(w, s.f.quoted)
    case InQuotes(q, w) =>
      && Begun(y.lead, y.done, Quoted(q, w)) && s.args == Meant(y.done) && s.held == w
      && (q == DQUOTE || q == SQUOTE)
      && s.f == Flags(false, false, false, s.f.variable, s.f.quoted, q == SQUOTE, q == DQUOTE)
      && QuotableTo(w, q, s.f.quoted)
  }

  lemma {:induction false} SpelledSnoc(items: seq<Item>, item: Item)
    ensures Spelled(items + [item]) == Spelled(items) + (item.word.Text() + item.gap)
    ensures Meant(items + [item]) == Meant(items) + [Unescape(item.word.w)]
    decreases |items|
  {
    hide Unescape, Spelling.Text;
    if items == [] {
      assert [] + [item] == [item] && [item][1..] == [];
    } else {
      assert (items + [item])[0] == items[0] && (items + [item])[1..] == items[1..] + [item];
      SpelledSnoc(items[1..], item);
    }
  }

  lemma FineSnoc(items: seq<Item>, item: Item)
    requires AllFine(items) && JoinsLast(items, item.word) && item.word.Fine() && Gap(item.gap)
    ensures AllFine(items + [item])
  {
    hide Joins, Spelling.Fine, Gap;
  }

  /** What a step turns the story into; a directive that ends is not told on. */
  ghost predicate ToldOn(y: Story, ch: byte, n: Next, z: Story) {
    n.More? ==> Tells(z, n.s) && z.Text() == y.Text() + [ch]
  }

  /** What a directive that has just ended was. */
  ghost predicate Told(y: Story, ch: byte, n: Next, items: seq<Item>) {
    n.Stop? && (n.code == Ok || n.code == BlockStart) ==>
      && Directive(y.lead, items, n.code == BlockStart) && ch == Terminator(n.code == BlockStart)
      && y.lead + Spelled(items) == y.Text() && n.args == Meant(items)
  }

  // ---------------------------------------------------------------- a step between words

  /** A word, a comment or more blanks begin here; `done` are the words that are over. */
  lemma StartTold(y: Story, s: Scanner, done: seq<Item>, ch: byte) returns (z: Story)
    requires !IsSpace(ch) && ch !in [SEMI, LBRACE, RBRACE, HASH]
    requires Outside(s) && !s.f.sharp && s.args == Meant(done) && y.Text() == y.lead + Spelled(done)
    requires Blanks(y.lead, false) && AllFine(done)
    requires done != [] && done[|done| - 1].gap == [] ==> done[|done| - 1].word.Quoted? && ch == RPAREN
    ensures BetweenWords(s, ch).More? && ToldOn(y, ch, BetweenWords(s, ch), z)
  {
    hide Gap, Spelling.Fine, Unescape, Meant, Spelled;
    if ch == DQUOTE || ch == SQUOTE {
      z := Story(y.lead, done, InQuotes(ch, []));
      assert [ch] + [] == [ch];
    } else {
      z := Story(y.lead, done, InBare([ch]));
      if ch != BACKSLASH {
        assert [ch][1..] == [];
      }
    }
  }

  lemma OneBlank(ch: byte, comment: bool)
    ensures BlankEnd([ch], comment)
         == if comment then Some(ch != LF)
            else if ch == HASH then Some(true) else if IsSpace(ch) then Some(false) else None
  {
    assert [ch][1..] == [];
  }

  /** A byte between words: one more blank, a terminator, or the start of a word. */
  lemma OutsideStep(s: Scanner, ch: byte)
    requires Outside(s)
    ensures BlankEnd([ch], s.f.sharp).None? ==> !s.f.sharp
    ensures var n, c, e := Step(s, ch), Counted(s, ch), BlankEnd([ch], s.f.sharp);
            if e.Some? then n.More? && Outside(n.s) && n.s.f.sharp == e.value && n.s.args == s.args
            else if ch == SEMI || ch == LBRACE then
              n.Stop? && n.args == s.args && n.code == if s.args == [] then Error(UnexpectedByte(ch))
                                                      else if ch == LBRACE then BlockStart else Ok
            else if ch == RBRACE then n.Stop? && n.code != Ok && n.code != BlockStart
            else
              && !IsSpace(ch) && ch != HASH && n == BetweenWords(c, ch)
              && Outside(c) && !s.f.sharp && !c.f.sharp && c.args == s.args
  {
    hide Unescape;
    OneBlank(ch, s.f.sharp);
  }

  lemma LeadTold(y: Story, s: Scanner, ch: byte) returns (z: Story)
    requires Tells(y, s) && y.open == AtLead
    ensures ToldOn(y, ch, Step(s, ch), z) && Told(y, ch, Step(s, ch), [])
  {
    hide Step, BlankEnd, BetweenWords;
    BlankSnoc(y.lead, false, ch);
    OutsideStep(s, ch);
    z := y.(lead := y.lead + [ch]);
    assert y.Text() == y.lead && z.Text() == y.lead + [ch];
    if BlankEnd([ch], s.f.sharp).None? && ch !in [SEMI, LBRACE, RBRACE] {
      z := StartTold(y, Counted(s, ch), [], ch);
    }
  }

  /** The item is over and complete. */
  lemma Complete(y: Story, item: Item)
    requires y.open == AfterWord(item) && Begun(y.lead, y.done, item.word) && item.word.Fine() && Gap(item.gap)
    ensures AllFine(y.done + [item]) && y.Text() == y.lead + Spelled(y.done + [item])
  {
    hide Spelling.Fine, Spelling.Text, Gap, Joins, AllFine, Spelled;
    FineSnoc(y.done, item);
    SpelledSnoc(y.done, item);
    var text := item.word.Text() + item.gap;
    assert y.lead + Spelled(y.done) + text == y.lead + (Spelled(y.done) + text);
  }

  lemma GapTold(y: Story, s: Scanner, item: Item, ch: byte) returns (z: Story)
    requires Tells(y, s) && y.open == AfterWord(item) && item.gap != []
    ensures ToldOn(y, ch, Step(s, ch), z)
    ensures Told(y, ch, Step(s, ch), y.done + [item])
  {
    hide Step, BlankEnd, BetweenWords, Unescape, Spelling.Fine, Spelling.Text, Meant, Spelled, AllFine, Joins;
    OutsideStep(s, ch);
    if BlankEnd([ch], s.f.sharp).Some? {
      z := LongerGap(y, item, ch, s.f.sharp);
    } else {
      Complete(y, item);
      assert (y.done + [item])[|y.done|] == item;
      z := y;
      if ch !in [SEMI, LBRACE, RBRACE] {
        z := StartTold(y, Counted(s, ch), y.done + [item], ch);
      }
    }
  }

  lemma LongerGap(y: Story, item: Item, ch: byte, sharp: bool) returns (z: Story)
    requires y.open == AfterWord(item) && GapTo(item.gap, sharp) && BlankEnd([ch], sharp).Some?
    ensures z == y.(open := AfterWord(item.(gap := item.gap + [ch]))) && z.Text() == y.Text() + [ch]
    ensures GapTo(item.gap + [ch], BlankEnd([ch], sharp).value)
    ensures Meant(z.done + [z.open.item]) == Meant(y.done + [item])
  {
    hide BlankEnd, Spelling.Text, Meant, Spelled;
    BlankSnoc(item.gap[1..], false, ch);
    assert (item.gap + [ch])[1..] == item.gap[1..] + [ch];
    z := y.(open := AfterWord(item.(gap := item.gap + [ch])));
    SameMeaning(y.done, item, z.open.item);
  }

  lemma SameMeaning(done: seq<Item>, item: Item, item': Item)
    requires item'.word == item.word
    ensures Meant(done + [item']) == Meant(done + [item])
  {
    SpelledSnoc(done, item);
    SpelledSnoc(done, item');
  }

  /** A byte right behind a closing quote. */
  lemma ClosedStep(s: Scanner, ch: byte)
    requires Closed(s)
    ensures var n, c := Step(s, ch), Counted(s, ch);
            if IsSpace(ch) then n.More? && Outside(n.s) && !n.s.f.sharp && n.s.args == s.args
            else if ch == SEMI then n.Stop? && n.code == Ok && n.args == s.args
            else if ch == LBRACE then n.Stop? && n.code == BlockStart && n.args == s.args
            else if ch == RPAREN then
              var d := c.(f := c.f.(lastSpace := true, needSpace := false));
              n == BetweenWords(d, ch) && Outside(d) && !d.f.sharp && d.args == s.args
            else n.Stop? && n.code.Error?
  {
    hide Unescape, BetweenWords;
  }

  lemma ClosedTold(y: Story, s: Scanner, item: Item, ch: byte) returns (z: Story)
    requires Tells(y, s) && y.open == AfterWord(item) && item.gap == []
    ensures ToldOn(y, ch, Step(s, ch), z)
    ensures Told(y, ch, Step(s, ch), y.done + [item])
  {
    hide Step, Unescape, Spelling.Fine, Spelling.Text, Meant, Spelled, AllFine, Joins, BetweenWords;
    ClosedStep(s, ch);
    var c := Counted(s, ch);
    var item' := item.(gap := [ch]);
    z := y.(open := AfterWord(item'));
    SameMeaning(y.done, item, item');
    assert [ch][1..] == [];
    assert item.word.Text() + [] + [ch] == item.word.Text() + [ch];
    assert z.Text() == y.Text() + [ch];
    Complete(y, item);
    assert (y.done + [item])[|y.done|] == item;
    if ch == RPAREN {
      z := StartTold(y, c.(f := c.f.(lastSpace := true, needSpace := false)), y.done + [item], ch);
    }
  }

  // ---------------------------------------------------------------- a step inside a word

  /** A byte inside a bare word. */
  lemma BareStep(s: Scanner, ch: byte)
    requires s.f == Flags(false, false, false, s.f.variable, s.f.quoted, false, false) && (s.f.quoted ==> !s.f.variable)
    ensures var n, word := Step(s, ch), s.args + [Unescape(s.held)];
            if s.f.quoted then
              && n.More? && n.s.held == s.held + [ch] && n.s.args == s.args
              && n.s.f == Flags(false, false, false, false, false, false, false)
            else if IsSpace(ch) then n.More? && Outside(n.s) && !n.s.f.sharp && n.s.args == word
            else if ch == SEMI then n.Stop? && n.code == Ok && n.args == word
            else if ch == LBRACE && !s.f.variable then n.Stop? && n.code == BlockStart && n.args == word
            else
              && n.More? && n.s.held == s.held + [ch] && n.s.args == s.args
              && n.s.f == Flags(false, false, false, ch == DOLLAR || ch == LBRACE, ch == BACKSLASH, false, false)
  {
    hide Unescape;
  }

  lemma BareTold(y: Story, s: Scanner, w: Bytes, ch: byte) returns (z: Story, items: seq<Item>)
    requires Tells(y, s) && y.open == InBare(w)
    ensures ToldOn(y, ch, Step(s, ch), z) && Told(y, ch, Step(s, ch), items)
  {
    hide Step, Unescape, Meant, Spelled, AllFine, Bare, TakesBrace;
    BareStep(s, ch);
    z, items := y, [];
    if !s.f.quoted && IsSpace(ch) {
      z := BareEnded(y, w, [ch]);
      assert [ch][1..] == [];
    } else if !s.f.quoted && (ch == SEMI || (ch == LBRACE && !s.f.variable)) {
      var z' := BareEnded(y, w, []);
      Complete(z', z'.open.item);
      items := y.done + [Item(Plainly(w), [])];
      assert items[|y.done|] == Item(Plainly(w), []);
      assert w + [] == w;
    } else {
      z := BareLonger(y, w, s.f.quoted, s.f.variable, ch);
    }
  }

  /** The bare word is over, with g behind it. */
  lemma BareEnded(y: Story, w: Bytes, g: Bytes) returns (z: Story)
    requires y.open == InBare(w)
    ensures z == y.(open := AfterWord(Item(Plainly(w), g))) && z.Text() == y.Text() + g
    ensures Meant(z.done + [z.open.item]) == Meant(y.done) + [Unescape(w)]
  {
    hide Unescape, Meant, Spelled;
    z := y.(open := AfterWord(Item(Plainly(w), g)));
    SpelledSnoc(y.done, z.open.item);
  }

  lemma BareLonger(y: Story, w: Bytes, quoted: bool, variable: bool, ch: byte) returns (z: Story)
    requires y.open == InBare(w) && BareTo(w, quoted) && JoinsLast(y.done, Plainly(w))
    requires variable == (!quoted && TakesBrace(w))
    requires !quoted ==> ch != SEMI && !IsSpace(ch) && (ch == LBRACE ==> variable)
    ensures z == y.(open := InBare(w + [ch])) && z.Text() == y.Text() + [ch] && JoinsLast(y.done, Plainly(w + [ch]))
    ensures if quoted then Bare(w + [ch]) && !TakesBrace(w + [ch])
            else
              && BareTo(w + [ch], ch == BACKSLASH)
              && (ch != BACKSLASH ==> TakesBrace(w + [ch]) == (ch == DOLLAR || ch == LBRACE))
  {
    hide Spelled, Bare, TakesBrace;
    z := y.(open := InBare(w + [ch]));
    JoinsLonger(y.done, w, ch);
    if quoted { BarePaired(w, ch); } else { BareGrows(w, ch); }
  }

  lemma JoinsLonger(done: seq<Item>, w: Bytes, ch: byte)
    requires JoinsLast(done, Plainly(w))
    ensures JoinsLast(done, Plainly(w + [ch]))
  {
  }

  lemma QuotesTold(y: Story, s: Scanner, q: byte, w: Bytes, ch: byte) returns (z: Story)
    requires Tells(y, s) && y.open == InQuotes(q, w)
    ensures ToldOn(y, ch, Step(s, ch), z) && Told(y, ch, Step(s, ch), [])
  {
    hide Unescape, Meant, Spelled, AllFine, Quotable;
    z := y.(open := InQuotes(q, w + [ch]));
    assert [q] + (w + [ch]) == [q] + w + [ch];
    assert z.Text() == y.Text() + [ch];
    if s.f.quoted {
      QuotablePaired(w, q, ch);
    } else if ch == q {
      var item := Item(Quoted(q, w), []);
      z := y.(open := AfterWord(item));
      SpelledSnoc(y.done, item);
      assert [q] + w + [q] + [] == [q] + w + [q];
      assert y.lead + Spelled(y.done) + ([q] + w + [q]) == y.lead + Spelled(y.done) + ([q] + w) + [q];
    } else {
      QuotableGrows(w, q, ch);
    }
  }

  lemma StepTold(y: Story, s: Scanner, ch: byte) returns (z: Story, items: seq<Item>)
    requires Tells(y, s)
    ensures ToldOn(y, ch, Step(s, ch), z) && Told(y, ch, Step(s, ch), items)
  {
    hide Tells, ToldOn, Told, Step;
    items := [];
    match y.open
    case AtLead => z := LeadTold(y, s, ch);
    case AfterWord(item) =>
      items := y.done + [item];
      if item.gap == [] { z := ClosedTold(y, s, item, ch); } else { z := GapTold(y, s, item, ch); }
    case InBare(w) => z, items := BareTold(y, s, w, ch);
    case InQuotes(q, w) => z := QuotesTold(y, s, q, w, ch);
  }

  // ---------------------------------------------------------------- the whole token

  /** The token is a directive: this is how its text was written. */
  ghost predicate Written(text: Bytes, t: Token, lead: Bytes, items: seq<Item>) {
    var block := t.code == BlockStart;
    && Directive(lead, items, block) && t.args == Meant(items)
    && text == lead + Spelled(items) + ([Terminator(block)] + t.rest)
  }

  lemma {:induction false} ScanTold(src: Source, y: Story, s: Scanner, rest: Bytes)
    returns (lead: Bytes, items: seq<Item>)
    requires Tells(y, s)
    ensures var t := ScanToken(src, s, rest);
            t.code == Ok || t.code == BlockStart ==> Written(y.Text() + rest, t, lead, items)
    decreases |rest|
  {
    hide Tells, Step, Directive, Story.Text;
    lead, items := [], [];
    if rest != [] && src.limit != Some(|s.held|) {
      var z, done := StepTold(y, s, rest[0]);
      assert y.Text() + rest == y.Text() + [rest[0]] + rest[1..];
      if Step(s, rest[0]).More? {
        lead, items := ScanTold(src, z, Step(s, rest[0]).s, rest[1..]);
      } else {
        lead, items := y.lead, done;
        assert y.Text() + [rest[0]] + rest[1..] == y.Text() + ([rest[0]] + rest[1..]);
      }
    }
  }

  /**
    A call of the scanner reports a directive, with these arguments and this text left, exactly
    when the text is one of the written forms of such a directive and stays below the buffer limit.
   */
  lemma DirectiveExactly(src: Source, line: nat, text: Bytes, block: bool, args: seq<Bytes>, rest: Bytes)
    ensures var t := NextToken(src, line, text);
            (t.code == (if block then BlockStart else Ok) && t.args == args && t.rest == rest) <==>
            exists lead, items :: Form(src, text, block, args, rest, lead, items)
  {
    hide Directive, Held, ScanToken, Tells;
    var t := NextToken(src, line, text);
    if t.code == (if block then BlockStart else Ok) && t.args == args && t.rest == rest {
      var y := Story([], [], AtLead);
      StoryBegins(line);
      assert y.Text() + text == text;
      var lead, items := ScanTold(src, y, Init(line), text);
      SpelledDirective(src, line, lead, items, block, rest);
      assert Form(src, text, block, args, rest, lead, items);
    }
    forall lead, items | Form(src, text, block, args, rest, lead, items)
      ensures t.code == (if block then BlockStart else Ok) && t.args == args && t.rest == rest
    {
      SpelledDirective(src, line, lead, items, block, rest);
    }
  }

  ghost predicate Form(
      src: Source, text: Bytes, block: bool, args: seq<Bytes>, rest: Bytes, lead: Bytes, items: seq<Item>)
  {
    && Directive(lead, items, block) && Held(src, lead, items) && Meant(items) == args
    && text == lead + Spelled(items) + ([Terminator(block)] + rest)
  }

  lemma StoryBegins(line: nat)
    ensures Tells(Story([], [], AtLead), Init(line)) && Story([], [], AtLead).Text() == []
  {
  }

  // ---------------------------------------------------------------- the end of a block

  lemma StepCloses(y: Story, s: Scanner, ch: byte)
    requires Tells(y, s)
    ensures Step(s, ch).Stop? && Step(s, ch).code == BlockDone ==>
              y.open == AtLead && ch == RBRACE && Blanks(y.lead, false)
  {
    hide Unescape, Meant;
    if y.open.AfterWord? {
      SpelledSnoc(y.done, y.open.item);
    }
  }

  lemma {:induction false} ScanCloses(src: Source, y: Story, s: Scanner, rest: Bytes) returns (lead: Bytes)
    requires Tells(y, s)
    ensures var t := ScanToken(src, s, rest);
            t.code == BlockDone ==> Blanks(lead, false) && y.Text() + rest == lead + ([RBRACE] + t.rest)
    decreases |rest|
  {
    hide Tells, Step, Told, Story.Text;
    lead := [];
    if rest != [] && src.limit != Some(|s.held|) {
      if Step(s, rest[0]).More? {
        var z, done := StepTold(y, s, rest[0]);
        assert y.Text() + rest == y.Text() + [rest[0]] + rest[1..];
        lead := ScanCloses(src, z, Step(s, rest[0]).s, rest[1..]);
      } else {
        StepCloses(y, s, rest[0]);
        lead := y.lead;
        TextAtLead(y, s);
      }
    }
  }

  lemma TextAtLead(y: Story, s: Scanner)
    requires Tells(y, s)
    ensures y.open == AtLead ==> y.Text() == y.lead
  {
  }

  /**
    The end of a block is reported exactly when there are only blanks before the brace, and they
    stay below the limit.
   */
  lemma ClosingExactly(src: Source, line: nat, text: Bytes, rest: Bytes)
    ensures var t := NextToken(src, line, text);
            (t.code == BlockDone && t.rest == rest) <==>
            exists lead :: ClosingForm(src, text, rest, lead)
  {
    hide ScanToken, Tells, GapPeak;
    var t := NextToken(src, line, text);
    if t.code == BlockDone && t.rest == rest {
      var y := Story([], [], AtLead);
      StoryBegins(line);
      assert y.Text() + text == text;
      var lead := ScanCloses(src, y, Init(line), text);
      ClosingScanned(src, line, lead, rest);
      assert ClosingForm(src, text, rest, lead);
    }
    forall lead | ClosingForm(src, text, rest, lead) ensures t.code == BlockDone && t.rest == rest {
      ClosingScanned(src, line, lead, rest);
    }
  }

  ghost predicate ClosingForm(src: Source, text: Bytes, rest: Bytes, lead: Bytes) {
    && text == lead + ([RBRACE] + rest)
    && Blanks(lead, false) && Below(src, GapPeak(lead, 0, false))
  }

  lemma ClosingScanned(src: Source, line: nat, lead: Bytes, rest: Bytes)
    requires Blanks(lead, false)
    ensures var t := NextToken(src, line, lead + ([RBRACE] + rest));
            if Below(src, GapPeak(lead, 0, false)) then t.code == BlockDone && t.rest == rest else Overlong(t.code)
  {
    hide ScanToken, Run, GapPeak;
    var r := BlanksGo(Init(line), lead);
    var m := GapPeak(lead, 0, false);
    UnderLimit(src, Init(line), lead, r, m, [RBRACE] + rest);
    if Below(src, m) {
      RunThenScan(src, Init(line), lead, [RBRACE] + rest);
      HeldBelow(src, lead, line, r, m);
      StopScan(src, r, RBRACE, rest);
    }
  }

  // ---------------------------------------------------------------- the end of the file

  lemma AtLeadAtEnd(src: Source, y: Story, s: Scanner)
    requires Tells(y, s) && AtEnd(src, s) == FileDone
    ensures y.open == AtLead && y.Text() == y.lead && BlankEnd(y.lead, false).Some?
  {
    if y.open.AfterWord? {
      SpelledSnoc(y.done, y.open.item);
    }
  }

  lemma {:induction false} ScanEnds(src: Source, y: Story, s: Scanner, rest: Bytes)
    requires Tells(y, s) && ScanToken(src, s, rest).code == FileDone
    ensures BlankEnd(y.Text() + rest, false).Some?
    decreases |rest|
  {
    hide Tells, Step, Told, AtEnd, BlankEnd, Story.Text;
    if rest == [] {
      AtLeadAtEnd(src, y, s);
      assert y.Text() + [] == y.Text();
    } else {
      StepErrors(s, rest[0]);
      var z, done := StepTold(y, s, rest[0]);
      assert y.Text() + rest == y.Text() + [rest[0]] + rest[1..];
      ScanEnds(src, z, Step(s, rest[0]).s, rest[1..]);
    }
  }

  /** Blanks, the last of which is ch, as all there is. The limit does not see the last byte. */
  lemma BlanksScanned(src: Source, line: nat, w: Bytes, ch: byte)
    requires BlankEnd(w + [ch], false).Some?
    ensures var code := NextToken(src, line, w + [ch]).code;
            if Below(src, GapPeak(w, 0, false)) then code == FileDone else Overlong(code)
  {
    hide ScanToken, Run, GapPeak, BlankEnd, Step;
    BlankPrefix(w, ch, false);
    var r := BlanksGo(Init(line), w);
    var m := GapPeak(w, 0, false);
    UnderLimit(src, Init(line), w, r, m, [ch]);
    if Below(src, m) {
      RunThenScan(src, Init(line), w, [ch]);
      HeldBelow(src, w, line, r, m);
      LastBlank(src, r, ch);
    }
  }

  lemma LastBlank(src: Source, s: Scanner, ch: byte)
    requires s.f == Init(0).f.(sharp := s.f.sharp) && s.args == [] && BlankEnd([ch], s.f.sharp).Some?
    requires Below(src, |s.held|)
    ensures ScanToken(src, s, [ch]).code == FileDone
  {
    hide BlankEnd;
    OutsideStep(s, ch);
    assert [ch][1..] == [];
  }

  /**
    The end of the file is reported exactly when there is nothing left but blanks, the last comment
    with its line feed or without, and all but the last byte stay below the limit.
   */
  lemma EndExactly(src: Source, line: nat, text: Bytes)
    ensures NextToken(src, line, text).code == FileDone <==>
            && BlankEnd(text, false).Some?
            && (text != [] ==> Below(src, GapPeak(text[..|text| - 1], 0, false)))
  {
    hide ScanToken, Tells, GapPeak, BlankEnd;
    if NextToken(src, line, text).code == FileDone {
      StoryBegins(line);
      ScanEnds(src, Story([], [], AtLead), Init(line), text);
      assert [] + text == text;
    }
    if text == [] {
      NothingLeft(src, line);
    } else if BlankEnd(text, false).Some? {
      assert text == text[..|text| - 1] + [text[|text| - 1]];
      BlanksScanned(src, line, text[..|text| - 1], text[|text| - 1]);
    }
  }

  lemma NothingLeft(src: Source, line: nat)
    ensures NextToken(src, line, []).code == FileDone && BlankEnd([], false).Some?
  {
  }
}
