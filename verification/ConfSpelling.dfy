/**
  The written form of a directive: every way to write its words, what may stand between them, and
  what the scanner makes of them.
 */
module ConfSpelling {
  import opened Bytes
  import opened ConfEscape
  import opened ConfScan

  // ---------------------------------------------------------------- words

  /** What may stand between two quotes q: bytes other than q, and pairs of a backslash and any byte. */
  predicate Quotable(w: Bytes, q: byte) {
    if w == [] then true
    else if w[0] == BACKSLASH then |w| >= 2 && Quotable(w[2..], q)
    else w[0] != q && Quotable(w[1..], q)
  }

  /** What may follow in a bare word. "{" only right behind a "$", or behind a "{" that was. */
  predicate BareRest(w: Bytes, variable: bool) {
    if w == [] then true
    else if w[0] == BACKSLASH then |w| >= 2 && BareRest(w[2..], false)
    else if w[0] == LBRACE then variable && BareRest(w[1..], true)
    else !IsSpace(w[0]) && w[0] != SEMI && BareRest(w[1..], w[0] == DOLLAR)
  }

  /** Whether a "{" behind w would still belong to the word. */
  predicate RestTakesBrace(w: Bytes, variable: bool) {
    if w == [] then variable
    else if w[0] == BACKSLASH then |w| >= 2 && RestTakesBrace(w[2..], false)
    else RestTakesBrace(w[1..], w[0] == DOLLAR || w[0] == LBRACE)
  }

  /** How many bytes of a bare word the first one stands for: a backslash takes the next with it. */
  function First(w: Bytes): nat
    requires w != []
  {
    if w[0] == BACKSLASH then 2 else 1
  }

  /** The byte may begin a bare word, or take part in one as its first. */
  predicate Starts(ch: byte) {
    !IsSpace(ch) && ch !in [SEMI, LBRACE, RBRACE, HASH, DQUOTE, SQUOTE]
  }

  /** A bare word. A "$" that is its first byte does not admit a "{". */
  predicate Bare(w: Bytes) {
    w != [] && Starts(w[0]) && |w| >= First(w) && BareRest(w[First(w)..], false)
  }

  predicate TakesBrace(w: Bytes) {
    w != [] && |w| >= First(w) && RestTakesBrace(w[First(w)..], false)
  }

  /** How a word is written. */
  datatype Spelling = Plainly(w: Bytes) | Quoted(q: byte, w: Bytes)
  {
    predicate Fine() {
      match this
      case Plainly(w) => Bare(w)
      case Quoted(q, w) => (q == DQUOTE || q == SQUOTE) && Quotable(w, q)
    }

    function Text(): Bytes {
      match this
      case Plainly(w) => w
      case Quoted(q, w) => [q] + w + [q]
    }

    /** How many bytes are held behind the word: the opening quote is not, the closing one is. */
    function Length(): nat {
      |w| + if Quoted? then 1 else 0
    }
  }

  // ---------------------------------------------------------------- gaps

  /** Inside a comment or not, after blanks; None if there is something else among them. */
  function BlankEnd(w: Bytes, comment: bool): Option<bool> {
    if w == [] then Some(comment)
    else if comment then BlankEnd(w[1..], w[0] != LF)
    else if w[0] == HASH then BlankEnd(w[1..], true)
    else if IsSpace(w[0]) then BlankEnd(w[1..], false)
    else None
  }

  /** White space and whole comments, each with its line feed. */
  predicate Blanks(w: Bytes, comment: bool) {
    BlankEnd(w, comment) == Some(false)
  }

  /** The gap behind a word: none, or white space and then any white space and whole comments. */
  predicate Gap(g: Bytes) {
    g != [] ==> IsSpace(g[0]) && Blanks(g[1..], false)
  }

  /** The most bytes held while blanks are read, with n held before them. A comment starts anew. */
  function GapPeak(g: Bytes, n: nat, comment: bool): nat
    decreases |g|
  {
    if g == [] then n
    else if !comment && g[0] == HASH then Max(n, GapPeak(g[1..], 1, true))
    else Max(n, GapPeak(g[1..], n + 1, comment && g[0] != LF))
  }

  function Max(a: nat, b: nat): nat {
    if a < b then b else a
  }

  // ---------------------------------------------------------------- directives

  datatype Item = Item(word: Spelling, gap: Bytes)

  /** No gap is needed only between a closing quote and ")". */
  predicate Joins(item: Item, next: Spelling) {
    item.gap == [] ==> item.word.Quoted? && next.Plainly? && next.w != [] && next.w[0] == RPAREN
  }

  predicate AllFine(items: seq<Item>) {
    && (forall i :: 0 <= i < |items| ==> items[i].word.Fine() && Gap(items[i].gap))
    && (forall i :: 0 < i < |items| ==> Joins(items[i - 1], items[i].word))
  }

  /** The terminator right behind a bare word must not be taken into it. */
  predicate Ends(item: Item, block: bool) {
    item.gap == [] && item.word.Plainly? && block ==> !TakesBrace(item.word.w)
  }

  /** Blanks, words with their gaps, and what ends them. */
  predicate Directive(lead: Bytes, items: seq<Item>, block: bool) {
    && Blanks(lead, false) && items != [] && AllFine(items)
    && Ends(items[|items| - 1], block)
  }

  function Spelled(items: seq<Item>): Bytes {
    if items == [] then [] else items[0].word.Text() + items[0].gap + Spelled(items[1..])
  }

  function Meant(items: seq<Item>): seq<Bytes> {
    if items == [] then [] else [Unescape(items[0].word.w)] + Meant(items[1..])
  }

  function Terminator(block: bool): byte {
    if block then LBRACE else SEMI
  }

  /** The most bytes held while the words and their gaps are read. */
  function ItemsPeak(items: seq<Item>): nat {
    if items == [] then 0 else Max(GapPeak(items[0].gap, items[0].word.Length(), false), ItemsPeak(items[1..]))
  }

  /** The directive stays below the buffer limit. */
  predicate Held(src: Source, lead: Bytes, items: seq<Item>) {
    Below(src, GapPeak(lead, 0, false)) && Below(src, ItemsPeak(items))
  }

  // ---------------------------------------------------------------- runs without a limit, and their peak

  /** The most bytes held at a loop head from s on until w is read. */
  function Peak(s: Scanner, w: Bytes): nat
    decreases |w|
  {
    if w == [] then |s.held|
    else
      match Step(s, w[0])
      case Stop(_, _, _) => |s.held|
      case More(s1) => Max(|s.held|, Peak(s1, w[1..]))
  }

  ghost const FREE := Source(None, true)

  /** The state after w, with no limit, and the most bytes held on the way. */
  ghost predicate Goes(s: Scanner, w: Bytes, r: Scanner, peak: nat) {
    Run(FREE, s, w) == Some(r) && Peak(s, w) == peak
  }

  lemma GoesNowhere(s: Scanner)
    ensures Goes(s, [], s, |s.held|)
  {
  }

  lemma GoesOne(s: Scanner, ch: byte)
    requires Step(s, ch).More?
    ensures Goes(s, [ch], Step(s, ch).s, Max(|s.held|, |Step(s, ch).s.held|))
  {
    hide Step;
    RunOne(FREE, s, ch);
    assert [ch][1..] == [] && Peak(Step(s, ch).s, []) == |Step(s, ch).s.held|;
    assert Peak(s, [ch]) == Max(|s.held|, Peak(Step(s, ch).s, [ch][1..]));
  }

  lemma {:induction false} GoesOn(s: Scanner, u: Bytes, v: Bytes, s1: Scanner, r: Scanner, m: nat, n: nat)
    requires Goes(s, u, s1, m) && Goes(s1, v, r, n)
    ensures Goes(s, u + v, r, Max(m, n))
    decreases |u|
  {
    hide Step;
    if u == [] {
      assert u + v == v;
      PeakAtLeast(s1, v);
    } else {
      assert (u + v)[0] == u[0] && (u + v)[1..] == u[1..] + v;
      GoesOn(Step(s, u[0]).s, u[1..], v, s1, r, Peak(Step(s, u[0]).s, u[1..]), n);
    }
  }

  lemma PeakAtLeast(s: Scanner, w: Bytes)
    ensures |s.held| <= Peak(s, w)
  {
    hide Step;
  }

  lemma {:induction false} PeakAtEnd(s: Scanner, w: Bytes, r: Scanner, m: nat)
    requires Goes(s, w, r, m)
    ensures |r.held| <= m
    decreases |w|
  {
    hide Step;
    if w != [] {
      PeakAtEnd(Step(s, w[0]).s, w[1..], r, Peak(Step(s, w[0]).s, w[1..]));
    }
  }

  /** A limit lets the run pass if it is above the peak; otherwise, with a byte to come, it strikes. */
  lemma {:induction false} UnderLimit(src: Source, s: Scanner, w: Bytes, r: Scanner, m: nat, tail: Bytes)
    requires Goes(s, w, r, m) && tail != [] && (src.limit.Some? ==> |s.held| <= src.limit.value)
    ensures if Below(src, m) then Run(src, s, w) == Some(r) else Overlong(ScanToken(src, s, w + tail).code)
    decreases |w|
  {
    hide Step;
    if w == [] {
      assert w + tail == tail;
    } else if src.limit == Some(|s.held|) {
      PeakAtLeast(s, w);
    } else {
      assert (w + tail)[0] == w[0] && (w + tail)[1..] == w[1..] + tail;
      HeldGrowsByOne(s, w[0]);
      UnderLimit(src, Step(s, w[0]).s, w[1..], r, Peak(Step(s, w[0]).s, w[1..]), tail);
    }
  }

  lemma {:induction false} RunCountsLines(src: Source, s: Scanner, w: Bytes)
    requires Run(src, s, w).Some?
    ensures Run(src, s, w).value.line == s.line + LineFeeds(w)
    decreases |w|
  {
    hide Step;
    if w != [] {
      StepCountsLine(s, w[0]);
      RunCountsLines(src, Step(s, w[0]).s, w[1..]);
    }
  }

  lemma StepCountsLine(s: Scanner, ch: byte)
    ensures match Step(s, ch)
            case More(s1) => s1.line == s.line + LineFeed(ch)
            case Stop(_, line, _) => line == s.line + LineFeed(ch)
  {
  }

  // ---------------------------------------------------------------- inside a word

  /** Inside a word, outside or inside the quotes that q names. */
  ghost predicate Inside(s: Scanner, q: Option<byte>) {
    && InsideWord(s) && !s.f.sharp && !s.f.quoted
    && s.f.dQuoted == (q == Some(DQUOTE)) && s.f.sQuoted == (q == Some(SQUOTE))
  }

  /** w has been read, as a part of the word. */
  ghost predicate Longer(s: Scanner, w: Bytes, r: Scanner, q: Option<byte>) {
    Goes(s, w, r, |s.held| + |w|) && Inside(r, q) && r.held == s.held + w && r.args == s.args
  }

  lemma OneByte(s: Scanner, ch: byte, q: Option<byte>) returns (r: Scanner)
    requires Inside(s, q) && ch != BACKSLASH
    requires if q.Some? then ch != q.value && (q.value == DQUOTE || q.value == SQUOTE)
             else !IsSpace(ch) && ch != SEMI && (ch == LBRACE ==> s.f.variable)
    ensures Longer(s, [ch], r, q)
    ensures r.f.variable == (ch == DOLLAR || (ch == LBRACE && s.f.variable))
  {
    hide Unescape, Goes;
    r := Step(s, ch).s;
    GoesOne(s, ch);
  }

  lemma OnePair(s: Scanner, ch: byte, q: Option<byte>) returns (r: Scanner)
    requires Inside(s, q)
    ensures Longer(s, [BACKSLASH, ch], r, q) && !r.f.variable
  {
    hide Unescape, Goes;
    var s1 := Step(s, BACKSLASH).s;
    GoesOne(s, BACKSLASH);
    GoesOne(s1, ch);
    r := Step(s1, ch).s;
    GoesOn(s, [BACKSLASH], [ch], s1, r, |s.held| + 1, |s.held| + 2);
    assert [BACKSLASH] + [ch] == [BACKSLASH, ch];
    assert s.held + [BACKSLASH] + [ch] == s.held + [BACKSLASH, ch];
  }

  /** The word goes on: first its first k bytes, then the rest of w. */
  lemma Onward(s: Scanner, w: Bytes, k: nat, s1: Scanner, r: Scanner, q: Option<byte>)
    requires k <= |w| && Longer(s, w[..k], s1, q) && Longer(s1, w[k..], r, q)
    ensures Longer(s, w, r, q)
  {
    hide Goes;
    GoesOn(s, w[..k], w[k..], s1, r, |s.held| + k, |s.held| + |w|);
    assert w[..k] + w[k..] == w;
    assert s.held + w[..k] + w[k..] == s.held + w;
  }

  lemma {:induction false} QuotableRun(s: Scanner, w: Bytes, q: byte) returns (r: Scanner)
    requires (q == DQUOTE || q == SQUOTE) && Inside(s, Some(q)) && Quotable(w, q)
    ensures Longer(s, w, r, Some(q))
    decreases |w|
  {
    hide Goes, Inside;
    if w == [] {
      GoesNowhere(s);
      r := s;
      assert s.held + w == s.held;
    } else {
      var k := First(w);
      var s1;
      if w[0] == BACKSLASH {
        assert w[..2] == [BACKSLASH, w[1]];
        s1 := OnePair(s, w[1], Some(q));
      } else {
        assert w[..1] == [w[0]];
        s1 := OneByte(s, w[0], Some(q));
      }
      r := QuotableRun(s1, w[k..], q);
      Onward(s, w, k, s1, r, Some(q));
    }
  }

  lemma {:induction false} BareRestRun(s: Scanner, w: Bytes) returns (r: Scanner)
    requires Inside(s, None) && BareRest(w, s.f.variable)
    ensures Longer(s, w, r, None) && r.f.variable == RestTakesBrace(w, s.f.variable)
    decreases |w|
  {
    hide Goes, Inside;
    if w == [] {
      GoesNowhere(s);
      r := s;
      assert s.held + w == s.held;
    } else {
      var k := First(w);
      var s1;
      if w[0] == BACKSLASH {
        assert w[..2] == [BACKSLASH, w[1]];
        s1 := OnePair(s, w[1], None);
      } else {
        assert w[..1] == [w[0]];
        s1 := OneByte(s, w[0], None);
      }
      r := BareRestRun(s1, w[k..]);
      Onward(s, w, k, s1, r, None);
    }
  }

  // ---------------------------------------------------------------- one word

  /** Right behind a closing quote. */
  ghost predicate Closed(s: Scanner) {
    && s.f.needSpace && !s.f.lastSpace && !s.f.sharp && !s.f.quoted && !s.f.variable && !s.f.sQuoted && !s.f.dQuoted
  }

  /** The word may be written here: between words, or, if it begins with ")", behind a closing quote. */
  ghost predicate MayStart(s: Scanner, word: Spelling) {
    Between(s) || (Closed(s) && word.Plainly? && word.w != [] && word.w[0] == RPAREN)
  }

  /** Past the word: still in it if it is bare, and otherwise behind the closing quote. */
  ghost predicate PastWord(s: Scanner, word: Spelling, r: Scanner) {
    match word
    case Plainly(w) => Inside(r, None) && r.held == w && r.args == s.args && r.f.variable == TakesBrace(w)
    case Quoted(_, w) => Closed(r) && |r.held| == |w| + 1 && r.args == s.args + [Unescape(w)]
  }

  lemma BareRun(s: Scanner, w: Bytes) returns (r: Scanner)
    requires Bare(w) && MayStart(s, Plainly(w))
    ensures Goes(s, w, r, Max(|s.held|, |w|)) && PastWord(s, Plainly(w), r)
  {
    hide Goes, Unescape;
    var s1 := Step(s, w[0]).s;
    GoesOne(s, w[0]);
    assert [w[0]] == w[..1];
    if w[0] == BACKSLASH {
      var s2 := Step(s1, w[1]).s;
      GoesOne(s1, w[1]);
      GoesOn(s, [w[0]], [w[1]], s1, s2, Max(|s.held|, 1), 2);
      assert [w[0]] + [w[1]] == w[..2];
      s1 := s2;
    }
    r := BareRestRun(s1, w[First(w)..]);
    GoesOn(s, w[..First(w)], w[First(w)..], s1, r, Max(|s.held|, First(w)), |w|);
    assert w[..First(w)] + w[First(w)..] == w;
  }

  lemma QuotesRun(s: Scanner, q: byte, w: Bytes) returns (r: Scanner)
    requires (q == DQUOTE || q == SQUOTE) && Quotable(w, q) && Between(s)
    ensures Goes(s, [q] + w + [q], r, Max(|s.held|, |w| + 1)) && PastWord(s, Quoted(q, w), r)
  {
    hide Goes, Unescape, Quotable;
    var s1 := Step(s, q).s;
    GoesOne(s, q);
    var s2 := QuotableRun(s1, w, q);
    assert s1.held + w == w;
    GoesOn(s, [q], w, s1, s2, |s.held|, |w|);
    r := Step(s2, q).s;
    GoesOne(s2, q);
    GoesOn(s, [q] + w, [q], s2, r, Max(|s.held|, |w|), |w| + 1);
  }

  lemma WordRun(s: Scanner, word: Spelling) returns (r: Scanner)
    requires word.Fine() && MayStart(s, word)
    ensures Goes(s, word.Text(), r, Max(|s.held|, word.Length())) && PastWord(s, word, r)
  {
    hide Goes, Unescape, Bare, Quotable, PastWord;
    match word
    case Plainly(w) => r := BareRun(s, w);
    case Quoted(q, w) => r := QuotesRun(s, q, w);
  }

  // ---------------------------------------------------------------- the gap behind it

  lemma {:induction false} BlanksGo(s: Scanner, g: Bytes) returns (r: Scanner)
    requires Between(s.(f := s.f.(sharp := false))) && BlankEnd(g, s.f.sharp).Some?
    ensures Goes(s, g, r, GapPeak(g, |s.held|, s.f.sharp))
    ensures r.f == s.f.(sharp := BlankEnd(g, s.f.sharp).value) && r.args == s.args
    decreases |g|
  {
    hide InWord;
    if g == [] {
      r := s;
    } else {
      var s1 := Step(s, g[0]).s;
      r := BlanksGo(s1, g[1..]);
    }
  }

  lemma {:induction false} BlankPrefix(w: Bytes, ch: byte, comment: bool)
    requires BlankEnd(w + [ch], comment).Some?
    ensures BlankEnd(w, comment).Some? && BlankEnd([ch], BlankEnd(w, comment).value).Some?
    decreases |w|
  {
    if w == [] {
      assert [] + [ch] == [ch];
    } else {
      assert (w + [ch])[0] == w[0] && (w + [ch])[1..] == w[1..] + [ch];
      BlankPrefix(w[1..], ch, if comment then w[0] != LF else w[0] == HASH);
    }
  }

  /** The first white space ends a bare word, or is what a closing quote asks for. */
  lemma GapRun(s0: Scanner, word: Spelling, s: Scanner, g: Bytes) returns (r: Scanner)
    requires PastWord(s0, word, s) && |s.held| == word.Length() && g != [] && Gap(g)
    ensures Goes(s, g, r, GapPeak(g, word.Length(), false))
    ensures Between(r) && r.args == s0.args + [Unescape(word.w)]
  {
    hide Goes, Unescape, GapPeak;
    var s1 := Step(s, g[0]).s;
    GoesOne(s, g[0]);
    r := BlanksGo(s1, g[1..]);
    GoesOn(s, [g[0]], g[1..], s1, r, |s.held| + 1, GapPeak(g[1..], |s.held| + 1, false));
    assert [g[0]] + g[1..] == g;
    GapPeakAtLeast(g[1..], |s.held| + 1, false);
    GapPeakFirst(g, |s.held|);
  }

  lemma GapPeakFirst(g: Bytes, n: nat)
    requires g != [] && IsSpace(g[0])
    ensures GapPeak(g, n, false) == Max(n, GapPeak(g[1..], n + 1, false))
  {
  }

  lemma {:induction false} GapPeakAtLeast(g: Bytes, n: nat, comment: bool)
    ensures n <= GapPeak(g, n, comment)
  {
  }

  /** After a word and its gap, if there is one. */
  ghost predicate After(s: Scanner, item: Item, r: Scanner) {
    if item.gap == [] then PastWord(s, item.word, r) && |r.held| == item.word.Length()
    else Between(r) && r.args == s.args + [Unescape(item.word.w)]
  }

  lemma ItemRun(s: Scanner, item: Item) returns (r: Scanner)
    requires item.word.Fine() && Gap(item.gap) && MayStart(s, item.word)
    ensures Goes(s, item.word.Text() + item.gap, r, Max(|s.held|, GapPeak(item.gap, item.word.Length(), false)))
    ensures After(s, item, r)
  {
    hide Goes, Unescape, Spelling.Text, Spelling.Fine, MayStart, GapPeak;
    var n := item.word.Length();
    var s1 := WordRun(s, item.word);
    assert |s1.held| == n;
    GapPeakAtLeast(item.gap, n, false);
    if item.gap == [] {
      r := s1;
      assert item.word.Text() + item.gap == item.word.Text();
      assert GapPeak([], n, false) == n by { GapPeakNone(n); }
    } else {
      r := GapRun(s, item.word, s1, item.gap);
      GoesOn(s, item.word.Text(), item.gap, s1, r, Max(|s.held|, n), GapPeak(item.gap, n, false));
    }
  }

  lemma GapPeakNone(n: nat)
    ensures GapPeak([], n, false) == n
  {
  }

  // ---------------------------------------------------------------- a directive

  lemma MayGoOn(s: Scanner, item: Item, r: Scanner, next: Spelling)
    requires After(s, item, r) && Joins(item, next)
    ensures MayStart(r, next)
    ensures r.args == s.args + [Unescape(item.word.w)]
  {
  }

  lemma FineRest(items: seq<Item>)
    requires items != [] && AllFine(items)
    ensures items[0].word.Fine() && Gap(items[0].gap) && AllFine(items[1..])
    ensures |items| > 1 ==> Joins(items[0], items[1].word)
  {
    hide Gap, Spelling.Fine, Joins;
    var rest := items[1..];
    forall i | 0 < i < |rest| ensures Joins(rest[i - 1], rest[i].word) {
      assert Joins(items[i + 1 - 1], items[i + 1].word);
    }
    if |items| > 1 {
      assert Joins(items[1 - 1], items[1].word);
    }
  }

  lemma FirstItem(items: seq<Item>)
    requires items != []
    ensures var item := items[0];
            && Spelled(items) == item.word.Text() + item.gap + Spelled(items[1..])
            && Meant(items) == [Unescape(item.word.w)] + Meant(items[1..])
            && ItemsPeak(items) == Max(GapPeak(item.gap, item.word.Length(), false), ItemsPeak(items[1..]))
    ensures |items| == 1 ==> Spelled(items[1..]) == [] && Meant(items[1..]) == [] && ItemsPeak(items[1..]) == 0
  {
    hide Spelling.Text, Unescape, GapPeak;
  }

  /** The state before the last word, and the one behind it and its gap. */
  lemma {:induction false} ItemsRun(s: Scanner, items: seq<Item>) returns (s1: Scanner, r: Scanner)
    requires items != [] && AllFine(items) && MayStart(s, items[0].word)
    ensures Goes(s, Spelled(items), r, Max(|s.held|, ItemsPeak(items)))
    ensures After(s1, items[|items| - 1], r)
    ensures s1.args + [Unescape(items[|items| - 1].word.w)] == s.args + Meant(items)
    decreases |items|
  {
    hide Goes, Gap, Spelling.Fine, Spelling.Text, Unescape, After, GapPeak, MayStart, Joins;
    hide AllFine, Spelled, Meant, ItemsPeak;
    FineRest(items);
    FirstItem(items);
    var item := items[0];
    var u := item.word.Text() + item.gap;
    var m := GapPeak(item.gap, item.word.Length(), false);
    var s2 := ItemRun(s, item);
    if |items| == 1 {
      s1, r := s, s2;
      assert u + [] == u;
    } else {
      MayGoOn(s, item, s2, items[1].word);
      s1, r := ItemsRun(s2, items[1..]);
      PeakAtEnd(s, u, s2, Max(|s.held|, m));
      GoesOn(s, u, Spelled(items[1..]), s2, r, Max(|s.held|, m), Max(|s2.held|, ItemsPeak(items[1..])));
      assert s.args + [Unescape(item.word.w)] + Meant(items[1..]) == s.args + Meant(items);
    }
  }

  /** The terminator ends the last word, if its gap has not, and the directive. */
  lemma TerminatorStops(s: Scanner, item: Item, r: Scanner, block: bool)
    requires After(s, item, r) && Ends(item, block)
    ensures Step(r, Terminator(block))
         == Stop(if block then BlockStart else Ok, r.line, s.args + [Unescape(item.word.w)])
  {
    hide Unescape;
  }

  /** Blanks, then the words. */
  lemma DirectiveRun(line: nat, lead: Bytes, items: seq<Item>, block: bool) returns (r: Scanner)
    requires Directive(lead, items, block)
    ensures Goes(Init(line), lead + Spelled(items), r, Max(GapPeak(lead, 0, false), ItemsPeak(items)))
    ensures Step(r, Terminator(block)) == Stop(if block then BlockStart else Ok, r.line, Meant(items))
  {
    hide Goes, Gap, Spelling.Fine, Spelling.Text, Unescape, After, GapPeak, Joins, AllFine, Step;
    var s := BlanksGo(Init(line), lead);
    var s1;
    s1, r := ItemsRun(s, items);
    PeakAtEnd(Init(line), lead, s, GapPeak(lead, 0, false));
    GoesOn(Init(line), lead, Spelled(items), s, r, GapPeak(lead, 0, false), Max(|s.held|, ItemsPeak(items)));
    TerminatorStops(s1, items[|items| - 1], r, block);
    assert [] + Meant(items) == Meant(items);
  }

  /**
    However a directive is written, one call returns the words it stands for, its terminator and
    its line, and stops right behind it, if it stays below the buffer limit; otherwise the limit is
    reported.
   */
  lemma SpelledDirective(src: Source, line: nat, lead: Bytes, items: seq<Item>, block: bool, tail: Bytes)
    requires Directive(lead, items, block)
    ensures var t := NextToken(src, line, lead + Spelled(items) + ([Terminator(block)] + tail));
            if Held(src, lead, items)
            then
              t == Token(if block then BlockStart else Ok, Meant(items), line + LineFeeds(lead + Spelled(items)), tail)
            else Overlong(t.code)
  {
    hide Directive, Step, GapPeak, ScanToken, Run, Spelled, Meant;
    var text, end := lead + Spelled(items), [Terminator(block)] + tail;
    var r := DirectiveRun(line, lead, items, block);
    var m := Max(GapPeak(lead, 0, false), ItemsPeak(items));
    UnderLimit(src, Init(line), text, r, m, end);
    if Below(src, m) {
      RunThenScan(src, Init(line), text, end);
      RunCountsLines(src, Init(line), text);
      HeldBelow(src, text, line, r, m);
      StopScan(src, r, Terminator(block), tail);
    }
  }

  lemma HeldBelow(src: Source, w: Bytes, line: nat, r: Scanner, m: nat)
    requires Goes(Init(line), w, r, m) && Below(src, m)
    ensures Below(src, |r.held|)
  {
    PeakAtEnd(Init(line), w, r, m);
  }
}
